/** The edge DataSets of the pages and the `addEdge` guards in front of them
    (tasks/task2, task3 and task4 script.js), with task2's flow bookkeeping
    `updateFlowVisual` and the `startMaxFlow` handler that runs edmondsKarp
    on the page's edges. A DataSet is a sequence in insertion order, which
    is the order `edges.get()` returns. */
module Stores {
  import opened Graph
  import Kruskal
  import MaxFlow
  import KeyOrder

  // ---------------------------------------------------------------- guards

  /** `fromNode && toNode && !isNaN(edgeWeight) && edgeWeight > 0`: both ids
      typed (an empty string is falsy) and the weight parsed to a number
      above 0; None stands for NaN. */
  predicate Accepts(from: NodeId, to: NodeId, weight: Option<int>) {
    from != "" && to != "" && weight.Some? && weight.value > 0
  }

  /** `${n}` for an integer. */
  function Text(n: int): (s: string)
    ensures n >= 0 ==> s == NatToString(n)
  {
    if n < 0 then "-" + NatToString(-n) else NatToString(n)
  }

  /** The text of an integer reads back as that integer: canonical decimal
      digits, after a '-' when it is negative. */
  lemma TextValue(n: int)
    ensures var s := Text(n);
      && (n >= 0 ==> KeyOrder.Value(s) == n && (s[0] == '0' ==> s == "0"))
      && (n < 0 ==> |s| >= 2 && s[0] == '-' && KeyOrder.Value(s[1..]) == -n && s[1] != '0')
  {
    if n < 0 {
      KeyOrder.DecimalValue(-n);
      assert Text(n)[1..] == NatToString(-n);
    } else {
      KeyOrder.DecimalValue(n);
    }
  }

  predicate Positive(es: seq<Edge>) {
    forall k :: 0 <= k < |es| ==> es[k].weight > 0
  }

  // ----------------------------------------------- task3: both directions

  /** An edge with its endpoints swapped. */
  function Reverse(e: Edge): (r: Edge)
    ensures r.from == e.to && r.to == e.from && r.weight == e.weight
  {
    Edge(e.to, e.from, e.caption, e.weight)
  }

  /** task3's addEdge on the edge list: an accepted edge is stored as u-v
      followed by v-u, both labelled with the weight. */
  function BothWays(es: seq<Edge>, from: NodeId, to: NodeId, weight: Option<int>): seq<Edge> {
    if Accepts(from, to, weight) then
      var e := Edge(from, to, Text(weight.value), weight.value);
      es + [e, Reverse(e)]
    else es
  }

  /** The shape every list built by task3's addEdge has: consecutive twins,
      the second the reverse of the first, of positive weight. */
  predicate Paired(es: seq<Edge>) {
    && |es| % 2 == 0
    && forall i :: 0 <= i < |es| && i % 2 == 0 ==> es[i + 1] == Reverse(es[i]) && es[i].weight > 0
  }

  /** task3's addEdge keeps the list paired and of positive weights. */
  lemma BothWaysPaired(es: seq<Edge>, from: NodeId, to: NodeId, weight: Option<int>)
    requires Paired(es)
    ensures Paired(BothWays(es, from, to, weight)) && Positive(BothWays(es, from, to, weight))
    ensures |BothWays(es, from, to, weight)| == |es| + (if Accepts(from, to, weight) then 2 else 0)
  {
    var r := BothWays(es, from, to, weight);
    forall i | 0 <= i < |r| && i % 2 == 0
      ensures r[i + 1] == Reverse(r[i]) && r[i].weight > 0
    {
      if i < |es| {
        assert r[i] == es[i] && r[i + 1] == es[i + 1];
      }
    }
    forall k | 0 <= k < |r| ensures r[k].weight > 0 {
      if k % 2 == 0 {
        assert r[k + 1] == Reverse(r[k]);
      } else {
        assert r[k] == Reverse(r[k - 1]);
      }
    }
  }

  /** The position of an edge's twin in a paired list. */
  function Twin(i: nat): nat {
    if i % 2 == 0 then i + 1 else i - 1
  }

  lemma PairedTwin(es: seq<Edge>, i: nat)
    requires Paired(es) && i < |es|
    ensures Twin(i) < |es| && Twin(i) != i && es[Twin(i)] == Reverse(es[i])
  {
    if i % 2 == 1 {
      assert es[i] == Reverse(es[i - 1]);
    }
  }

  lemma TwiceCounted(s: seq<Edge>, a: nat, b: nat)
    requires a < b < |s| && s[a] == s[b]
    ensures multiset(s)[s[a]] >= 2
  {
    assert s == s[..b] + s[b..];
    assert s[a] in s[..b] && s[b] in s[b..];
  }

  lemma CountOnce(s: seq<Edge>, i: nat)
    requires i < |s|
    ensures (forall j :: 0 <= j < |s| && j != i ==> s[j] != s[i]) ==> multiset(s)[s[i]] == 1
  {
    assert s == s[..i] + [s[i]] + s[i + 1..];
    if forall j :: 0 <= j < |s| && j != i ==> s[j] != s[i] {
      assert s[i] !in s[..i] && s[i] !in s[i + 1..];
    }
  }

  lemma OtherCopy(s: seq<Edge>, i: nat)
    requires i < |s| && multiset(s)[s[i]] >= 2
    ensures exists j :: 0 <= j < |s| && j != i && s[j] == s[i]
  {
    CountOnce(s, i);
  }

  /** In kruskal's sorted copy of a paired list every edge has its twin
      elsewhere, and whichever of the two comes later is skipped: its
      endpoints are already connected. */
  lemma SecondCopySkipped(es: seq<Edge>, i: nat)
    requires Paired(es) && i < |Kruskal.SortByWeight(es)|
    ensures var s := Kruskal.SortByWeight(es);
      exists j :: 0 <= j < |s| && j != i && s[j] == Reverse(s[i]) &&
        (j < i ==> Kruskal.Greedy(s[..i + 1]) == Kruskal.Greedy(s[..i]))
  {
    var s := Kruskal.SortByWeight(es);
    Kruskal.SortPermutation(es);
    assert s[i] in multiset(es);
    var k :| 0 <= k < |es| && es[k] == s[i];
    PairedTwin(es, k);
    var r := es[Twin(k)];
    var j: nat;
    if r != s[i] {
      assert r in multiset(s);
      j :| 0 <= j < |s| && s[j] == r;
    } else {
      if k < Twin(k) {
        TwiceCounted(es, k, Twin(k));
      } else {
        TwiceCounted(es, Twin(k), k);
      }
      OtherCopy(s, i);
      j :| 0 <= j < |s| && j != i && s[j] == s[i];
    }
    if j < i {
      Kruskal.RepeatedPairSkipped(s, j, i);
    }
  }

  /** addEdge for a-b (1), b-c (2), a-c (5) on an empty list builds the
      list of Kruskal.KruskalTriangle, which keeps a-b and b-c. */
  lemma BothWaysTriangle(a: NodeId, b: NodeId, c: NodeId)
    requires a != "" && b != "" && c != ""
    ensures BothWays(BothWays(BothWays([], a, b, Some(1)), b, c, Some(2)), a, c, Some(5))
            == Kruskal.Triangle(a, b, c)
  {
    assert Text(1) == "1" && Text(2) == "2" && Text(5) == "5";
  }

  /** task3's edge DataSet. */
  class TwoWayEdges {
    var edges: seq<Edge>

    constructor ()
      ensures edges == []
    {
      edges := [];
    }

    /** task3's addEdge: two `edges.add` calls when the guard holds. */
    method AddEdge(from: NodeId, to: NodeId, weight: Option<int>)
      modifies this
      ensures edges == BothWays(old(edges), from, to, weight)
    {
      if from != "" && to != "" && weight.Some? && weight.value > 0 {
        var w := weight.value;
        edges := edges + [Edge(from, to, Text(w), w)];
        edges := edges + [Edge(to, from, Text(w), w)];
      }
    }
  }

  // ------------------------------------------ task4: one edge per pair

  /** The edge joins a and b, in either direction. */
  predicate SamePair(e: Edge, a: NodeId, b: NodeId) {
    (e.from == a && e.to == b) || (e.from == b && e.to == a)
  }

  /** Some stored edge joins a and b. */
  predicate Joined(es: seq<Edge>, a: NodeId, b: NodeId) {
    exists k :: 0 <= k < |es| && SamePair(es[k], a, b)
  }

  /** `edges.get().some(...)`: scan the list in order, stop at the first edge
      that joins the two ids. */
  method Existing(es: seq<Edge>, a: NodeId, b: NodeId) returns (found: bool)
    ensures found <==> Joined(es, a, b)
  {
    for k := 0 to |es|
      invariant forall m :: 0 <= m < k ==> !SamePair(es[m], a, b)
    {
      if (es[k].from == a && es[k].to == b) || (es[k].from == b && es[k].to == a) {
        return true;
      }
    }
    return false;
  }

  /** task4's addEdge on the edge list: an accepted edge is appended unless
      an edge already joins the same unordered pair. */
  function Once(es: seq<Edge>, from: NodeId, to: NodeId, weight: Option<int>): seq<Edge> {
    if Accepts(from, to, weight) && !Joined(es, from, to) then
      es + [Edge(from, to, Text(weight.value), weight.value)]
    else es
  }

  /** No two stored edges join the same unordered pair. */
  predicate Simple(es: seq<Edge>) {
    forall i, j :: 0 <= i < j < |es| ==> !SamePair(es[j], es[i].from, es[i].to)
  }

  /** task4's addEdge keeps the list simple and of positive weights, adds at
      most one edge at the end, and an accepted pair is joined afterwards. */
  lemma OnceSimple(es: seq<Edge>, from: NodeId, to: NodeId, weight: Option<int>)
    ensures Simple(es) ==> Simple(Once(es, from, to, weight))
    ensures Positive(es) ==> Positive(Once(es, from, to, weight))
    ensures var r := Once(es, from, to, weight);
      && r[..|es|] == es
      && |r| == |es| + (if Accepts(from, to, weight) && !Joined(es, from, to) then 1 else 0)
    ensures Accepts(from, to, weight) ==> Joined(Once(es, from, to, weight), from, to)
  {
    var r := Once(es, from, to, weight);
    if Accepts(from, to, weight) && !Joined(es, from, to) {
      var n := |es|;
      assert SamePair(r[n], from, to);
      if Simple(es) {
        forall i, j | 0 <= i < j < |r| ensures !SamePair(r[j], r[i].from, r[i].to) {
          if j == n {
            assert r[i] == es[i];
            assert !SamePair(es[i], from, to);
          }
        }
      }
    }
  }

  /** task4's edge DataSet. */
  class SimpleEdges {
    var edges: seq<Edge>

    constructor ()
      ensures edges == []
    {
      edges := [];
    }

    /** task4's addEdge: when the guard holds, look for an edge joining the
        pair and add the new one only if there is none. */
    method AddEdge(from: NodeId, to: NodeId, weight: Option<int>)
      modifies this
      ensures edges == Once(old(edges), from, to, weight)
    {
      if from != "" && to != "" && weight.Some? && weight.value > 0 {
        var existing := Existing(edges, from, to);
        if !existing {
          edges := edges + [Edge(from, to, Text(weight.value), weight.value)];
        }
      }
    }
  }

  // ------------------------------------------------- task2: flow records

  /** A task2 edge: a task3/task4 edge with the flow pushed along it. */
  datatype FlowEdge = FlowEdge(from: NodeId, to: NodeId, caption: string, weight: int, flow: int)

  /** task2's addEdge on the edge list: an accepted edge starts with flow 0. */
  function Fresh(es: seq<FlowEdge>, from: NodeId, to: NodeId, weight: Option<int>): seq<FlowEdge> {
    if Accepts(from, to, weight) then es + [FlowEdge(from, to, Text(weight.value), weight.value, 0)] else es
  }

  /** Every stored edge has a positive weight and no negative flow. */
  predicate Carrying(es: seq<FlowEdge>) {
    forall k :: 0 <= k < |es| ==> es[k].weight > 0 && es[k].flow >= 0
  }

  /** task2's addEdge keeps weights positive and flows non-negative, and an
      accepted edge is the last one, carrying nothing. */
  lemma FreshCarrying(es: seq<FlowEdge>, from: NodeId, to: NodeId, weight: Option<int>)
    ensures Carrying(es) ==> Carrying(Fresh(es, from, to, weight))
    ensures Accepts(from, to, weight) ==>
      var r := Fresh(es, from, to, weight);
      |r| == |es| + 1 && r[..|es|] == es && r[|es|].flow == 0 && r[|es|].weight == weight.value
    ensures !Accepts(from, to, weight) ==> Fresh(es, from, to, weight) == es
  {
    if Accepts(from, to, weight) {
      var r := Fresh(es, from, to, weight);
      assert forall k :: 0 <= k < |es| ==> r[k] == es[k];
    }
  }

  /** One edge after `updateFlowVisual(u, v, f)`: an edge from u to v (in
      that direction only) gains f and is relabelled flow/weight. */
  function Credit(e: FlowEdge, u: NodeId, v: NodeId, f: int): FlowEdge {
    if e.from == u && e.to == v then
      e.(flow := e.flow + f, caption := Text(e.flow + f) + "/" + Text(e.weight))
    else e
  }

  function Credited(es: seq<FlowEdge>, u: NodeId, v: NodeId, f: int): (r: seq<FlowEdge>)
    ensures |r| == |es|
  {
    seq(|es|, k requires 0 <= k < |es| => Credit(es[k], u, v, f))
  }

  lemma CreditedAt(es: seq<FlowEdge>, u: NodeId, v: NodeId, f: int, k: nat)
    requires k < |es|
    ensures Credited(es, u, v, f)[k] == Credit(es[k], u, v, f)
  {
  }

  /** Two updates of the same edge add up to one. */
  lemma CreditedTwice(es: seq<FlowEdge>, u: NodeId, v: NodeId, f: int, g: int)
    ensures Credited(Credited(es, u, v, f), u, v, g) == Credited(es, u, v, f + g)
  {
    var a, b := Credited(Credited(es, u, v, f), u, v, g), Credited(es, u, v, f + g);
    forall k | 0 <= k < |es| ensures a[k] == b[k] {
      assert Credited(es, u, v, f)[k] == Credit(es[k], u, v, f);
    }
  }

  /** The number of steps from u to v along p. */
  function Count(p: seq<NodeId>, u: NodeId, v: NodeId): nat
    decreases |p|
  {
    if |p| < 2 then 0
    else Count(p[..|p| - 1], u, v) + (if p[|p| - 2] == u && p[|p| - 1] == v then 1 else 0)
  }

  /** What one round with bottleneck f adds to an edge from u to v: f for
      each step of p from u to v. */
  function Carried(p: seq<NodeId>, u: NodeId, v: NodeId, f: int): int
    decreases |p|
  {
    if |p| < 2 then 0
    else Carried(p[..|p| - 1], u, v, f) + (if p[|p| - 2] == u && p[|p| - 1] == v then f else 0)
  }

  /** A walk that repeats no node steps from u to v at most once, and once
      exactly when the step is on it: a round then adds its bottleneck to
      an edge from u to v exactly when its walk steps from u to v. */
  lemma {:induction false} CountNext(p: seq<NodeId>, u: NodeId, v: NodeId, f: int)
    requires NoDup(p)
    ensures Count(p, u, v) <= 1
    ensures Count(p, u, v) == 1 <==> MaxFlow.Next(p, u, v)
    ensures Carried(p, u, v, f) == if MaxFlow.Next(p, u, v) then f else 0
    decreases |p|
  {
    if |p| >= 2 {
      var init := p[..|p| - 1];
      assert forall k :: 0 <= k < |init| ==> init[k] == p[k];
      assert NoDup(init);
      CountNext(init, u, v, f);
      if MaxFlow.Next(init, u, v) {
        var i :| 0 <= i < |init| - 1 && init[i] == u && init[i + 1] == v;
        assert p[i] == u && p[i + 1] == v;
      }
      if p[|p| - 2] == u && p[|p| - 1] == v {
        assert !MaxFlow.Next(init, u, v) by {
          forall i | 0 <= i < |init| - 1 ensures !(init[i] == u && init[i + 1] == v) {
            assert init[i + 1] == p[i + 1];
          }
        }
      }
      if !MaxFlow.Next(init, u, v) {
        forall j | 0 <= j < |p| - 2 ensures !(p[j] == u && p[j + 1] == v) {
          assert init[j] == p[j] && init[j + 1] == p[j + 1];
        }
      }
    }
  }

  /** The edge list after `updateFlowVisual` for each step of p in order. */
  function Walked(es: seq<FlowEdge>, p: seq<NodeId>, f: int): (r: seq<FlowEdge>)
    ensures |r| == |es|
    decreases |p|
  {
    if |p| < 2 then es else Credited(Walked(es, p[..|p| - 1], f), p[|p| - 2], p[|p| - 1], f)
  }

  /** After the updates of one round an edge from u to v carries f more for
      each step of the walk from u to v; endpoints and weight stay, a
      credited edge is labelled flow/weight, and an edge the walk never
      steps along is unchanged. */
  lemma {:induction false} WalkedEdge(es: seq<FlowEdge>, p: seq<NodeId>, f: int, k: nat)
    requires k < |es|
    ensures var e, e' := es[k], Walked(es, p, f)[k];
      && e'.from == e.from && e'.to == e.to && e'.weight == e.weight
      && e'.flow == e.flow + Carried(p, e.from, e.to, f)
      && e'.caption == (if Count(p, e.from, e.to) > 0 then Text(e'.flow) + "/" + Text(e.weight) else e.caption)
      && (Count(p, e.from, e.to) == 0 ==> e' == e)
    decreases |p|
  {
    if |p| >= 2 {
      var init, a, b := p[..|p| - 1], p[|p| - 2], p[|p| - 1];
      var base := Walked(es, init, f);
      WalkedEdge(es, init, f, k);
      CreditedAt(base, a, b, f, k);
      var e := es[k];
      var c := Count(init, e.from, e.to);
      assert Count(p, e.from, e.to) == c + (if a == e.from && b == e.to then 1 else 0);
    }
  }

  /** The edge list after the updates of every round: paths[r] with flows[r]. */
  function Replayed(es: seq<FlowEdge>, paths: seq<seq<NodeId>>, flows: seq<int>): (r: seq<FlowEdge>)
    requires |flows| == |paths|
    ensures |r| == |es|
    decreases |paths|
  {
    if |paths| == 0 then es
    else
      var n := |paths| - 1;
      Walked(Replayed(es, paths[..n], flows[..n]), paths[n], flows[n])
  }

  /** Σ over the rounds of what each round carried from u to v. */
  function Pushed(paths: seq<seq<NodeId>>, flows: seq<int>, u: NodeId, v: NodeId): int
    requires |flows| == |paths|
    decreases |paths|
  {
    if |paths| == 0 then 0
    else
      var n := |paths| - 1;
      Pushed(paths[..n], flows[..n], u, v) + Carried(paths[n], u, v, flows[n])
  }

  /** Some round steps from u to v. */
  ghost predicate Stepped(paths: seq<seq<NodeId>>, u: NodeId, v: NodeId) {
    exists r :: 0 <= r < |paths| && Count(paths[r], u, v) > 0
  }

  lemma SteppedSnoc(paths: seq<seq<NodeId>>, u: NodeId, v: NodeId)
    requires |paths| > 0
    ensures var n := |paths| - 1;
      Stepped(paths, u, v) <==> Stepped(paths[..n], u, v) || Count(paths[n], u, v) > 0
  {
    var n := |paths| - 1;
    if Stepped(paths, u, v) && Count(paths[n], u, v) == 0 {
      var r :| 0 <= r < |paths| && Count(paths[r], u, v) > 0;
      assert paths[..n][r] == paths[r];
    }
    if Stepped(paths[..n], u, v) {
      var r :| 0 <= r < n && Count(paths[..n][r], u, v) > 0;
      assert paths[r] == paths[..n][r];
    }
  }

  /** After all rounds an edge from u to v carries what the rounds pushed
      from u to v on top of its old flow; endpoints and weight stay, and an
      edge some round stepped along is labelled flow/weight. */
  lemma {:induction false} ReplayedEdge(es: seq<FlowEdge>, paths: seq<seq<NodeId>>, flows: seq<int>, k: nat)
    requires |flows| == |paths| && k < |es|
    ensures var e, e' := es[k], Replayed(es, paths, flows)[k];
      && e'.from == e.from && e'.to == e.to && e'.weight == e.weight
      && e'.flow == e.flow + Pushed(paths, flows, e.from, e.to)
      && e'.caption == if Stepped(paths, e.from, e.to) then Text(e'.flow) + "/" + Text(e.weight) else e.caption
    decreases |paths|
  {
    if |paths| > 0 {
      var n := |paths| - 1;
      var e := es[k];
      ReplayedEdge(es, paths[..n], flows[..n], k);
      WalkedEdge(Replayed(es, paths[..n], flows[..n]), paths[n], flows[n], k);
      SteppedSnoc(paths, e.from, e.to);
    }
  }

  /** The residual construction reads each edge's endpoints and weight. */
  function Pipes(es: seq<FlowEdge>): (ps: seq<MaxFlow.Pipe<NodeId>>)
    ensures |ps| == |es|
    ensures forall k :: 0 <= k < |es| ==> ps[k] == MaxFlow.Pipe(es[k].from, es[k].to, es[k].weight)
  {
    seq(|es|, k requires 0 <= k < |es| => MaxFlow.Pipe(es[k].from, es[k].to, es[k].weight))
  }

  /** Each row of the residual table in the order `for (let v in graph[u])`
      enumerates it. */
  function Ordered(rows: map<NodeId, seq<NodeId>>): (r: map<NodeId, seq<NodeId>>)
    ensures r.Keys == rows.Keys
  {
    map u | u in rows :: KeyOrder.EnumOrder(rows[u])
  }

  /** Reordering the rows keeps the table well formed. */
  lemma OrderedNet(cap: map<(NodeId, NodeId), int>, rows: map<NodeId, seq<NodeId>>)
    requires MaxFlow.Net(cap, rows)
    ensures MaxFlow.Net(cap, Ordered(rows))
  {
    var r := Ordered(rows);
    forall u | u in rows
      ensures (forall v :: v in r[u] <==> v in rows[u]) && NoDup(r[u])
    {
      KeyOrder.EnumOrderShape(rows[u]);
    }
  }

  /** task2's edge DataSet. */
  class FlowEdges {
    var edges: seq<FlowEdge>

    constructor ()
      ensures edges == []
    {
      edges := [];
    }

    /** task2's addEdge: one `edges.add` with flow 0 when the guard holds. */
    method AddEdge(from: NodeId, to: NodeId, weight: Option<int>)
      modifies this
      ensures edges == Fresh(old(edges), from, to, weight)
    {
      if from != "" && to != "" && weight.Some? && weight.value > 0 {
        edges := edges + [FlowEdge(from, to, Text(weight.value), weight.value, 0)];
      }
    }

    /** The bookkeeping of `updateFlowVisual(u, v, f)`: every edge from u to
        v, in list order, gains f and is relabelled. */
    method UpdateFlow(u: NodeId, v: NodeId, f: int)
      modifies this
      ensures edges == Credited(old(edges), u, v, f)
    {
      for i := 0 to |edges|
        invariant |edges| == |old(edges)|
        invariant forall k :: 0 <= k < i ==> edges[k] == Credit(old(edges)[k], u, v, f)
        invariant forall k :: i <= k < |edges| ==> edges[k] == old(edges)[k]
      {
        var e := edges[i];
        if e.from == u && e.to == v {
          edges := edges[i := e.(flow := e.flow + f, caption := Text(e.flow + f) + "/" + Text(e.weight))];
        }
      }
    }

    /** `startMaxFlow` for typed ids source and sink: build the residual
        table from the edge list, run edmondsKarp, and record each pushed
        bottleneck on the edges along each augmenting walk. */
    method StartMaxFlow(source: NodeId, sink: NodeId)
      returns (maxFlow: int, paths: seq<seq<NodeId>>, flows: seq<int>,
               ghost cap0: map<(NodeId, NodeId), int>, ghost rows: map<NodeId, seq<NodeId>>,
               ghost cap: map<(NodeId, NodeId), int>, ghost tables: seq<map<(NodeId, NodeId), int>>)
      requires source != sink
      modifies this
      ensures MaxFlow.Built(Pipes(old(edges)), cap0, rows)
      ensures MaxFlow.Run(cap0, Ordered(rows), source, sink, maxFlow, cap, paths, flows, tables)
      ensures !MaxFlow.Connected(cap, source, sink)
      ensures maxFlow == 0 <==> !MaxFlow.Connected(cap0, source, sink)
      ensures edges == Replayed(old(edges), paths, flows)
    {
      var c, r := MaxFlow.Residual(Pipes(edges));
      cap0, rows := c, r;
      OrderedNet(c, r);
      maxFlow, cap, paths, flows, tables := MaxFlow.EdmondsKarp(c, Ordered(r), source, sink);
      Replay(paths, flows);
    }

    /** The calls of `updateFlowVisual` in one round: each step of p in
        order, with the round's bottleneck f. */
    method Walk(p: seq<NodeId>, f: int)
      modifies this
      ensures edges == Walked(old(edges), p, f)
    {
      if |p| > 0 {
        for i := 1 to |p|
          invariant edges == Walked(old(edges), p[..i], f)
        {
          assert p[..i + 1][..i] == p[..i];
          UpdateFlow(p[i - 1], p[i], f);
        }
        assert p[..|p|] == p;
      }
    }

    /** The calls of `updateFlowVisual` over all rounds, in order. */
    method Replay(paths: seq<seq<NodeId>>, flows: seq<int>)
      requires |flows| == |paths|
      modifies this
      ensures edges == Replayed(old(edges), paths, flows)
    {
      for k := 0 to |paths|
        invariant edges == Replayed(old(edges), paths[..k], flows[..k])
      {
        Walk(paths[k], flows[k]);
        assert paths[..k + 1][..k] == paths[..k] && flows[..k + 1][..k] == flows[..k];
      }
      assert paths[..|paths|] == paths && flows[..|flows|] == flows;
    }
  }
}
