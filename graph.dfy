/** Shared vocabulary of the four graph scripts: node identifiers, node records,
    the Option and extended-integer types, JavaScript's findIndex over a node
    list, decimal rendering of indices, and undirected walks over a list of
    (from, to) links. */
module Graph {

  /** vis.js node and edge endpoints are strings. */
  type NodeId = string

  /** The (from, to) endpoints of one edge: every algorithm here reads an edge's
      endpoints through this projection. */
  type Link = (NodeId, NodeId)

  datatype Option<T> = None | Some(value: T)

  /** A node of a vis.js DataSet: its id and its display label (`caption`,
      since `label` is a Dafny keyword). */
  datatype Node = Node(id: NodeId, caption: string)

  /** A number that may be JavaScript's Infinity; only integers reach it here. */
  datatype Ext = Fin(n: int) | Inf {

    /** `this + w` with Infinity absorbing. */
    function Plus(w: int): Ext {
      if Fin? then Fin(n + w) else Inf
    }

    /** JavaScript's `<` on numbers that may be Infinity. */
    predicate Below(other: Ext) {
      Fin? && (other.Inf? || n < other.n)
    }

    /** JavaScript's `<=` on numbers that may be Infinity. */
    predicate AtMost(other: Ext) {
      other.Inf? || (Fin? && n <= other.n)
    }
  }

  /** `nodeArray.findIndex(node => node.id === id)`: the first position holding
      that id, or -1. */
  function IndexOf(nodes: seq<Node>, id: NodeId): (r: int)
    ensures -1 <= r < |nodes|
    ensures r == -1 <==> forall k :: 0 <= k < |nodes| ==> nodes[k].id != id
    ensures r >= 0 ==> nodes[r].id == id && forall k :: 0 <= k < r ==> nodes[k].id != id
  {
    if |nodes| == 0 then -1
    else if nodes[0].id == id then 0
    else
      var k := IndexOf(nodes[1..], id);
      if k == -1 then -1 else k + 1
  }

  function Ids(nodes: seq<Node>): (ids: seq<NodeId>)
    ensures |ids| == |nodes| && forall k :: 0 <= k < |nodes| ==> ids[k] == nodes[k].id
  {
    seq(|nodes|, k requires 0 <= k < |nodes| => nodes[k].id)
  }

  // ---------------------------------------------------------------- decimals

  function Digit(d: nat): (c: char)
    requires d < 10
    ensures '0' <= c <= '9'
  {
    (d + 48) as char
  }

  /** `n.toString()` for a non-negative integer. */
  function NatToString(n: nat): (s: string)
    ensures 1 <= |s|
    ensures n >= 10 ==> 2 <= |s|
    ensures forall i :: 0 <= i < |s| ==> '0' <= s[i] <= '9'
  {
    if n < 10 then [Digit(n)] else NatToString(n / 10) + [Digit(n % 10)]
  }

  /** Distinct indices print as distinct strings. */
  lemma {:induction false} NatToStringInjective(a: nat, b: nat)
    requires NatToString(a) == NatToString(b)
    ensures a == b
  {
    if a >= 10 && b >= 10 {
      var sa, sb := NatToString(a), NatToString(b);
      assert sa[.. |sa| - 1] == NatToString(a / 10);
      assert sb[.. |sb| - 1] == NatToString(b / 10);
      NatToStringInjective(a / 10, b / 10);
      assert Digit(a % 10) == sa[|sa| - 1] == sb[|sb| - 1] == Digit(b % 10);
    } else if a < 10 && b < 10 {
      assert Digit(a) == NatToString(a)[0] == NatToString(b)[0] == Digit(b);
    }
  }

  // ------------------------------------------------------------------ edges

  /** A task1 edge: directed, its label is the weight text as typed. */
  datatype Arc = Arc(from: NodeId, to: NodeId, caption: string)

  /** A task3/task4 edge: its label is the decimal text of its integer weight. */
  datatype Edge = Edge(from: NodeId, to: NodeId, caption: string, weight: int)

  /** The endpoint pairs of task1's arcs, for the walk predicates below. */
  function ArcLinks(arcs: seq<Arc>): (ls: seq<Link>)
    ensures |ls| == |arcs| && forall k :: 0 <= k < |arcs| ==> ls[k] == (arcs[k].from, arcs[k].to)
  {
    seq(|arcs|, k requires 0 <= k < |arcs| => (arcs[k].from, arcs[k].to))
  }

  /** The endpoint pairs of weighted edges. Arc and Edge are two entity
      types (task1's arcs carry the typed text, the weighted pages' edges an
      integer weight), so each has its own projection onto links. */
  function EdgeLinks(es: seq<Edge>): (ls: seq<Link>)
    ensures |ls| == |es| && forall k :: 0 <= k < |es| ==> ls[k] == (es[k].from, es[k].to)
  {
    seq(|es|, k requires 0 <= k < |es| => (es[k].from, es[k].to))
  }

  /** No element occurs twice. */
  predicate NoDup<K(==)>(s: seq<K>) {
    forall i, j :: 0 <= i < j < |s| ==> s[i] != s[j]
  }

  /** x is written in the log: `x in log` under a name of its own, so that a
      quantifier over x can be made to fire only where it is mentioned. */
  ghost predicate Lists<K(!new)>(log: seq<K>, x: K) {
    x in log
  }

  /** The position of x in s: the first, and with no repeats the only one. */
  function Pos<K(==)>(s: seq<K>, x: K): (i: nat)
    requires x in s
    ensures i < |s| && s[i] == x
    ensures NoDup(s) ==> forall j :: 0 <= j < |s| && s[j] == x ==> j == i
  {
    if s[0] == x then 0 else 1 + Pos(s[1..], x)
  }

  /** Appending keeps the position of an element already present. */
  lemma {:induction false} PosSnoc<K>(s: seq<K>, v: K, x: K)
    requires x in s
    ensures Pos(s + [v], x) == Pos(s, x)
    decreases |s|
  {
    if s[0] != x {
      assert (s + [v])[1..] == s[1..] + [v];
      PosSnoc(s[1..], v, x);
    }
  }

  // ------------------------------------------------------- undirected walks
  // Generic in the node type: the algorithms that reason about walks are
  // proved once for any node type with equality.

  /** Some link joins u and v, in either direction. */
  predicate Adjacent<K(==,!new)>(links: seq<(K, K)>, u: K, v: K) {
    exists k :: 0 <= k < |links| && Joins(links[k], u, v)
  }

  predicate Joins<K(==,!new)>(l: (K, K), u: K, v: K) {
    (l.0 == u && l.1 == v) || (l.0 == v && l.1 == u)
  }

  /** A non-empty sequence of nodes, each adjacent to the next. */
  ghost predicate Walk<K(!new)>(links: seq<(K, K)>, p: seq<K>) {
    |p| >= 1 && forall i :: 0 <= i < |p| - 1 ==> Adjacent(links, p[i], p[i + 1])
  }

  ghost predicate Reachable<K(!new)>(links: seq<(K, K)>, x: K, y: K) {
    exists p :: Walk(links, p) && p[0] == x && p[|p| - 1] == y
  }

  /** Every link joins two nodes that earlier links did not already connect. */
  ghost predicate Acyclic<K(!new)>(links: seq<(K, K)>) {
    forall k :: 0 <= k < |links| ==> !Reachable(links[..k], links[k].0, links[k].1)
  }

  /** A set closed under adjacency. */
  ghost predicate Closed<K(!new)>(links: seq<(K, K)>, s: set<K>) {
    forall u, v :: u in s && Adjacent(links, u, v) ==> v in s
  }

  lemma ReachableRefl<K(!new)>(links: seq<(K, K)>, x: K)
    ensures Reachable(links, x, x)
  {
    assert Walk(links, [x]);
  }

  lemma ReachableStep<K(!new)>(links: seq<(K, K)>, x: K, y: K, z: K)
    requires Reachable(links, x, y) && Adjacent(links, y, z)
    ensures Reachable(links, x, z)
  {
    var p :| Walk(links, p) && p[0] == x && p[|p| - 1] == y;
    var q := p + [z];
    assert forall i :: 0 <= i < |q| - 1 ==> q[i] == p[i] || i == |p| - 1;
    assert Walk(links, q);
  }

  lemma ReachableFirstStep<K(!new)>(links: seq<(K, K)>, x: K, y: K, z: K)
    requires Adjacent(links, x, y) && Reachable(links, y, z)
    ensures Reachable(links, x, z)
  {
    var p :| Walk(links, p) && p[0] == y && p[|p| - 1] == z;
    var q := [x] + p;
    assert forall i :: 1 <= i < |q| - 1 ==> q[i] == p[i - 1] && q[i + 1] == p[i];
    assert Walk(links, q);
  }

  lemma AdjacentSymmetric<K(!new)>(links: seq<(K, K)>, u: K, v: K)
    requires Adjacent(links, u, v)
    ensures Adjacent(links, v, u)
  {
    var k :| 0 <= k < |links| && Joins(links[k], u, v);
    assert Joins(links[k], v, u);
  }

  /** Walks may be read backwards, since links are undirected. */
  lemma ReachableSymmetric<K(!new)>(links: seq<(K, K)>, x: K, y: K)
    requires Reachable(links, x, y)
    ensures Reachable(links, y, x)
  {
    var p :| Walk(links, p) && p[0] == x && p[|p| - 1] == y;
    var q := seq(|p|, i requires 0 <= i < |p| => p[|p| - 1 - i]);
    forall i | 0 <= i < |q| - 1
      ensures Adjacent(links, q[i], q[i + 1])
    {
      AdjacentSymmetric(links, p[|p| - 2 - i], p[|p| - 1 - i]);
    }
    assert Walk(links, q);
  }

  lemma ReachableTransitive<K(!new)>(links: seq<(K, K)>, x: K, y: K, z: K)
    requires Reachable(links, x, y) && Reachable(links, y, z)
    ensures Reachable(links, x, z)
  {
    var p :| Walk(links, p) && p[0] == x && p[|p| - 1] == y;
    var q :| Walk(links, q) && q[0] == y && q[|q| - 1] == z;
    var w := p + q[1..];
    forall i | 0 <= i < |w| - 1
      ensures Adjacent(links, w[i], w[i + 1])
    {
      if i < |p| - 1 {
        assert w[i] == p[i] && w[i + 1] == p[i + 1];
      } else {
        assert w[i] == q[i - |p| + 1] && w[i + 1] == q[i - |p| + 2];
      }
    }
    assert Walk(links, w);
  }

  /** Adding links keeps every walk a walk. */
  lemma ReachableGrow<K(!new)>(links: seq<(K, K)>, more: seq<(K, K)>, x: K, y: K)
    requires Reachable(links, x, y)
    ensures Reachable(links + more, x, y)
  {
    var p :| Walk(links, p) && p[0] == x && p[|p| - 1] == y;
    forall i | 0 <= i < |p| - 1
      ensures Adjacent(links + more, p[i], p[i + 1])
    {
      var k :| 0 <= k < |links| && Joins(links[k], p[i], p[i + 1]);
      assert (links + more)[k] == links[k];
    }
    assert Walk(links + more, p);
  }

  /** A walk over links a is a walk over any b holding every link of a. */
  lemma ReachableWithin<K(!new)>(a: seq<(K, K)>, b: seq<(K, K)>, x: K, y: K)
    requires forall k :: 0 <= k < |a| ==> a[k] in b
    requires Reachable(a, x, y)
    ensures Reachable(b, x, y)
  {
    var p :| Walk(a, p) && p[0] == x && p[|p| - 1] == y;
    forall i | 0 <= i < |p| - 1
      ensures Adjacent(b, p[i], p[i + 1])
    {
      var k :| 0 <= k < |a| && Joins(a[k], p[i], p[i + 1]);
      var m :| 0 <= m < |b| && b[m] == a[k];
      assert Joins(b[m], p[i], p[i + 1]);
    }
    assert Walk(b, p);
  }

  /** Every node reachable from a member of a closed set is in it. */
  lemma {:induction false} ClosedContainsReachable<K(!new)>(links: seq<(K, K)>, s: set<K>, x: K, y: K)
    requires Closed(links, s) && x in s && Reachable(links, x, y)
    ensures y in s
  {
    var p :| Walk(links, p) && p[0] == x && p[|p| - 1] == y;
    var i := 0;
    while i < |p| - 1
      invariant 0 <= i < |p| && p[i] in s
    {
      assert Adjacent(links, p[i], p[i + 1]);
      i := i + 1;
    }
  }

  // --------------------------------------------------------------- matrices
  // Both adjacency-matrix codecs save nodes by position and load row k as
  // node "k".

  /** An n by n matrix. */
  predicate Square<T>(m: seq<seq<T>>, n: nat) {
    |m| == n && forall i :: 0 <= i < n ==> |m[i]| == n
  }

  lemma SameMatrix<T>(a: seq<seq<T>>, b: seq<seq<T>>, n: nat)
    requires Square(a, n) && Square(b, n)
    requires forall i, j :: 0 <= i < n && 0 <= j < n ==> a[i][j] == b[i][j]
    ensures a == b
  {
    forall i | 0 <= i < n
      ensures a[i] == b[i]
    {
    }
  }

  /** Cell (r2, c2) is visited before cell (r, c) in row-major order. */
  predicate Before(r2: int, c2: int, r: int, c: int) {
    r2 < r || (r2 == r && c2 < c)
  }

  /** The id of row k: the decimal text of k. */
  function Id(k: nat): NodeId {
    NatToString(k)
  }

  /** The nodes loadGraph adds: row k becomes node "k" labelled "Узел k". */
  function NumberedNodes(n: nat): (nodes: seq<Node>)
    ensures |nodes| == n
    ensures forall k :: 0 <= k < n ==> nodes[k] == Node(Id(k), "Узел " + Id(k))
  {
    seq(n, k requires 0 <= k => Node(Id(k), "Узел " + Id(k)))
  }

  /** Node "k" of the numbered list is found at position k. */
  lemma NumberedIndex(n: nat, k: nat)
    requires k < n
    ensures IndexOf(NumberedNodes(n), Id(k)) == k
  {
    var nodes := NumberedNodes(n);
    var r := IndexOf(nodes, Id(k));
    assert nodes[k].id == Id(k);
    NatToStringInjective(r, k);
  }
}
