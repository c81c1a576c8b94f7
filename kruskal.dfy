/** kruskal (tasks/task3/script.js): a stable sort of the edge list by weight,
    then one pass that keeps an edge exactly when union-find says its two
    endpoints lie in different components.

    The method is proved against Greedy, a reference that knows nothing of
    union-find: scanning the sorted edges, keep an edge exactly when the edges
    kept so far do not already connect its endpoints. The union-find forest is
    tied to the kept edges by Forest: kept edges join equal roots, and equal
    roots are connected by kept edges. */
module Kruskal {
  import opened Graph
  import opened UnionFind

  // ------------------------------------------------------------ stable sort

  /** `edgesArray.sort((a, b) => a.weight - b.weight)`: the library sort is
      stable, which insertion from the back reproduces. */
  function SortByWeight(es: seq<Edge>): (r: seq<Edge>)
    decreases |es|
  {
    if |es| == 0 then [] else Insert(es[0], SortByWeight(es[1..]))
  }

  /** Place e in front of the first edge that does not weigh less. */
  function Insert(e: Edge, s: seq<Edge>): (r: seq<Edge>)
    ensures |r| == |s| + 1
  {
    if |s| == 0 || e.weight <= s[0].weight then [e] + s
    else
      assert s == [s[0]] + s[1..];
      [s[0]] + Insert(e, s[1..])
  }

  predicate Sorted(es: seq<Edge>) {
    forall i, j :: 0 <= i < j < |es| ==> es[i].weight <= es[j].weight
  }

  /** The edges of a given weight, in their order. */
  function OfWeight(es: seq<Edge>, w: int): (r: seq<Edge>)
    ensures forall k :: 0 <= k < |r| ==> r[k].weight == w
  {
    if |es| == 0 then []
    else if es[0].weight == w then [es[0]] + OfWeight(es[1..], w)
    else OfWeight(es[1..], w)
  }

  lemma {:induction false} InsertSorted(e: Edge, s: seq<Edge>)
    requires Sorted(s)
    ensures Sorted(Insert(e, s))
    ensures |s| > 0 ==> Insert(e, s)[0].weight == if e.weight <= s[0].weight then e.weight else s[0].weight
  {
    if |s| > 0 && e.weight > s[0].weight {
      assert Sorted(s[1..]);
      InsertSorted(e, s[1..]);
      var t := Insert(e, s[1..]);
      assert s[0].weight <= t[0].weight;
      assert Insert(e, s) == [s[0]] + t;
    }
  }

  lemma {:induction false} InsertOfWeight(e: Edge, s: seq<Edge>, w: int)
    ensures OfWeight(Insert(e, s), w) == if e.weight == w then [e] + OfWeight(s, w) else OfWeight(s, w)
  {
    if |s| == 0 || e.weight <= s[0].weight {
      assert ([e] + s)[1..] == s;
    } else {
      InsertOfWeight(e, s[1..], w);
      assert ([s[0]] + Insert(e, s[1..]))[1..] == Insert(e, s[1..]);
    }
  }

  /** The sort's result is ordered by weight. */
  lemma {:induction false} SortSorted(es: seq<Edge>)
    ensures Sorted(SortByWeight(es))
  {
    if |es| > 0 {
      SortSorted(es[1..]);
      InsertSorted(es[0], SortByWeight(es[1..]));
    }
  }

  /** The sort's result is a permutation of its input. */
  lemma {:induction false} SortPermutation(es: seq<Edge>)
    ensures multiset(SortByWeight(es)) == multiset(es)
  {
    if |es| > 0 {
      SortPermutation(es[1..]);
      InsertPermutation(es[0], SortByWeight(es[1..]));
      assert es == [es[0]] + es[1..];
    }
  }

  lemma {:induction false} InsertPermutation(e: Edge, s: seq<Edge>)
    ensures multiset(Insert(e, s)) == multiset(s) + multiset{e}
  {
    if |s| > 0 && e.weight > s[0].weight {
      InsertPermutation(e, s[1..]);
      assert s == [s[0]] + s[1..];
    }
  }

  /** The sort is stable: the edges of each weight keep their relative order. */
  lemma {:induction false} SortStable(es: seq<Edge>, w: int)
    ensures OfWeight(SortByWeight(es), w) == OfWeight(es, w)
  {
    if |es| > 0 {
      SortStable(es[1..], w);
      InsertOfWeight(es[0], SortByWeight(es[1..]), w);
    }
  }

  /** Sorting an already sorted list changes nothing. */
  lemma {:induction false} SortSortedIdentity(es: seq<Edge>)
    requires Sorted(es)
    ensures SortByWeight(es) == es
  {
    if |es| > 0 {
      assert Sorted(es[1..]);
      SortSortedIdentity(es[1..]);
      assert es == [es[0]] + es[1..];
    }
  }

  // ------------------------------------------------------ greedy reference

  /** The edges kept by scanning es in order, keeping an edge exactly when the
      edges kept before it do not connect its endpoints. */
  ghost function Greedy(es: seq<Edge>): (acc: seq<Edge>)
    decreases |es|
  {
    if |es| == 0 then []
    else
      var acc := Greedy(es[..|es| - 1]);
      var e := es[|es| - 1];
      if Reachable(EdgeLinks(acc), e.from, e.to) then acc else acc + [e]
  }

  /** a is b with some entries removed. */
  ghost predicate Subsequence(a: seq<Edge>, b: seq<Edge>)
    decreases |b|
  {
    if |a| == 0 then true
    else if |b| == 0 then false
    else if a[|a| - 1] == b[|b| - 1] && Subsequence(a[..|a| - 1], b[..|b| - 1]) then true
    else Subsequence(a, b[..|b| - 1])
  }

  lemma {:induction false} SubsequenceGrow(a: seq<Edge>, b: seq<Edge>, e: Edge)
    requires Subsequence(a, b)
    ensures Subsequence(a, b + [e])
  {
    assert (b + [e])[..|b|] == b;
  }

  lemma {:induction false} SubsequenceSorted(a: seq<Edge>, b: seq<Edge>)
    requires Subsequence(a, b) && Sorted(b)
    ensures Sorted(a)
    ensures forall i :: 0 <= i < |a| ==> a[i] in b
    decreases |b|
  {
    if |a| > 0 {
      var b' := b[..|b| - 1];
      assert Sorted(b');
      if a[|a| - 1] == b[|b| - 1] && Subsequence(a[..|a| - 1], b') {
        var a' := a[..|a| - 1];
        SubsequenceSorted(a', b');
        forall i, j | 0 <= i < j < |a|
          ensures a[i].weight <= a[j].weight
        {
          if j < |a| - 1 {
            assert a[i] == a'[i] && a[j] == a'[j];
          } else {
            assert a[i] == a'[i] && a'[i] in b';
          }
        }
        forall i | 0 <= i < |a|
          ensures a[i] in b
        {
          if i < |a| - 1 {
            assert a[i] == a'[i];
          }
        }
      } else {
        SubsequenceSorted(a, b');
      }
    }
  }

  lemma LinksSnoc(acc: seq<Edge>, e: Edge)
    ensures EdgeLinks(acc + [e]) == EdgeLinks(acc) + [(e.from, e.to)]
  {
  }

  /** Greedy keeps some of the edges, in their order. */
  lemma {:induction false} GreedySubsequence(es: seq<Edge>)
    ensures Subsequence(Greedy(es), es)
    decreases |es|
  {
    if |es| > 0 {
      var init := es[..|es| - 1];
      GreedySubsequence(init);
      var acc := Greedy(init);
      if !Reachable(EdgeLinks(acc), es[|es| - 1].from, es[|es| - 1].to) {
        assert (acc + [es[|es| - 1]])[..|acc|] == acc;
      } else {
        SubsequenceGrow(acc, init, es[|es| - 1]);
        assert init + [es[|es| - 1]] == es;
      }
    }
  }

  /** No kept edge joins endpoints already connected by the edges kept before it. */
  lemma {:induction false} GreedyAcyclic(es: seq<Edge>)
    ensures Acyclic(EdgeLinks(Greedy(es)))
    decreases |es|
  {
    if |es| > 0 {
      var init := es[..|es| - 1];
      GreedyAcyclic(init);
      var acc := Greedy(init);
      var e := es[|es| - 1];
      if !Reachable(EdgeLinks(acc), e.from, e.to) {
        var ls := EdgeLinks(acc + [e]);
        LinksSnoc(acc, e);
        forall k | 0 <= k < |ls|
          ensures !Reachable(ls[..k], ls[k].0, ls[k].1)
        {
          if k < |acc| {
            assert ls[..k] == EdgeLinks(acc)[..k];
            assert ls[k] == EdgeLinks(acc)[k];
          } else {
            assert ls[..k] == EdgeLinks(acc);
          }
        }
      }
    }
  }

  /** Every scanned edge has its endpoints connected by the kept edges: the
      kept edges span each component of the scanned graph. */
  lemma {:induction false} GreedySpans(es: seq<Edge>)
    ensures forall k :: 0 <= k < |es| ==> Reachable(EdgeLinks(Greedy(es)), es[k].from, es[k].to)
    decreases |es|
  {
    if |es| > 0 {
      var init := es[..|es| - 1];
      GreedySpans(init);
      forall k | 0 <= k < |es|
        ensures Reachable(EdgeLinks(Greedy(es)), es[k].from, es[k].to)
      {
        if k < |init| {
          assert init[k] == es[k];
        }
        GreedySpansLast(es, k);
      }
    }
  }

  lemma GreedySpansLast(es: seq<Edge>, k: nat)
    requires k < |es|
    requires k < |es| - 1 ==> Reachable(EdgeLinks(Greedy(es[..|es| - 1])), es[k].from, es[k].to)
    ensures Reachable(EdgeLinks(Greedy(es)), es[k].from, es[k].to)
  {
    var init := es[..|es| - 1];
    var acc := Greedy(init);
    var e := es[|es| - 1];
    var kept := !Reachable(EdgeLinks(acc), e.from, e.to);
    assert Greedy(es) == if kept then acc + [e] else acc;
    if kept {
      LinksSnoc(acc, e);
      if k < |init| {
        ReachableGrow(EdgeLinks(acc), [(e.from, e.to)], es[k].from, es[k].to);
      } else {
        KeptEdgeReachable(acc, e);
      }
    }
  }

  /** A kept edge connects its own endpoints. */
  lemma KeptEdgeReachable(acc: seq<Edge>, e: Edge)
    ensures Reachable(EdgeLinks(acc + [e]), e.from, e.to)
  {
    var ls := EdgeLinks(acc + [e]);
    assert Joins(ls[|acc|], e.from, e.to);
    ReachableRefl(ls, e.from);
    ReachableStep(ls, e.from, e.from, e.to);
  }

  /** addEdge stores every edge twice, u-v then v-u: the later copy of a pair
      already scanned (in either direction) is never kept. */
  lemma RepeatedPairSkipped(es: seq<Edge>, j: nat, i: nat)
    requires j < i < |es| && Joins((es[j].from, es[j].to), es[i].from, es[i].to)
    ensures Greedy(es[..i + 1]) == Greedy(es[..i])
  {
    var init := es[..i];
    GreedySpans(init);
    assert init[j] == es[j];
    var ls := EdgeLinks(Greedy(init));
    if es[j].from == es[i].from {
      assert Reachable(ls, es[i].from, es[i].to);
    } else {
      ReachableSymmetric(ls, es[j].from, es[j].to);
    }
    GreedySnoc(es, i);
  }

  /** The tree kruskal reports: sorted by weight, drawn from the edge list,
      acyclic and spanning every edge's endpoints. */
  lemma KruskalTree(edges: seq<Edge>)
    ensures var mst := Greedy(SortByWeight(edges));
      && Sorted(mst)
      && (forall i :: 0 <= i < |mst| ==> mst[i] in edges)
      && Acyclic(EdgeLinks(mst))
      && forall k :: 0 <= k < |edges| ==> Reachable(EdgeLinks(mst), edges[k].from, edges[k].to)
  {
    var sorted := SortByWeight(edges);
    SortSorted(edges);
    SortPermutation(edges);
    GreedySubsequence(sorted);
    SubsequenceSorted(Greedy(sorted), sorted);
    GreedyAcyclic(sorted);
    GreedySpans(sorted);
    forall i | 0 <= i < |Greedy(sorted)|
      ensures Greedy(sorted)[i] in edges
    {
      assert Greedy(sorted)[i] in multiset(sorted);
    }
    forall k | 0 <= k < |edges|
      ensures Reachable(EdgeLinks(Greedy(sorted)), edges[k].from, edges[k].to)
    {
      assert edges[k] in multiset(sorted);
      var j :| 0 <= j < |sorted| && sorted[j] == edges[k];
    }
  }

  // ------------------------------------------------------ cycle condition

  /** The edges of es that weigh at most w, in their order. */
  function Light(es: seq<Edge>, w: int): (r: seq<Edge>)
    ensures forall e :: e in r <==> e in es && e.weight <= w
    decreases |es|
  {
    if |es| == 0 then []
    else
      assert es == [es[0]] + es[1..];
      if es[0].weight <= w then [es[0]] + Light(es[1..], w) else Light(es[1..], w)
  }

  /** Scanning more edges only appends to what Greedy keeps. */
  lemma {:induction false} GreedyPrefix(es: seq<Edge>, i: nat)
    requires i <= |es|
    ensures Greedy(es[..i]) <= Greedy(es)
    decreases |es|
  {
    if i < |es| {
      var init := es[..|es| - 1];
      assert init[..i] == es[..i];
      GreedyPrefix(init, i);
    } else {
      assert es[..i] == es;
    }
  }

  /** A prefix of the kept edges whose edges weigh at most w lies inside
      the light part of the kept edges. */
  lemma PrefixLight(acc: seq<Edge>, mst: seq<Edge>, w: int)
    requires acc <= mst && forall i :: 0 <= i < |acc| ==> acc[i].weight <= w
    ensures forall i :: 0 <= i < |acc| ==> EdgeLinks(acc)[i] in EdgeLinks(Light(mst, w))
  {
    var light := Light(mst, w);
    forall i | 0 <= i < |acc|
      ensures EdgeLinks(acc)[i] in EdgeLinks(light)
    {
      assert acc[i] == mst[i];
      var n :| 0 <= n < |light| && light[n] == acc[i];
      assert EdgeLinks(light)[n] == EdgeLinks(acc)[i];
    }
  }

  /** The edges kept from the first j + 1 sorted edges weigh at most the
      j-th one. */
  lemma PrefixWeights(sorted: seq<Edge>, j: nat)
    requires Sorted(sorted) && j < |sorted|
    ensures var acc := Greedy(sorted[..j + 1]);
      forall i :: 0 <= i < |acc| ==> acc[i].weight <= sorted[j].weight
  {
    var pre := sorted[..j + 1];
    var acc := Greedy(pre);
    GreedySubsequence(pre);
    SubsequenceSorted(acc, pre);
    forall i | 0 <= i < |acc|
      ensures acc[i].weight <= sorted[j].weight
    {
      var m :| 0 <= m < |pre| && pre[m] == acc[i];
      assert pre[m] == sorted[m];
    }
  }

  lemma PrefixSpans(sorted: seq<Edge>, j: nat)
    requires j < |sorted|
    ensures Reachable(EdgeLinks(Greedy(sorted[..j + 1])), sorted[j].from, sorted[j].to)
  {
    var pre := sorted[..j + 1];
    GreedySpans(pre);
    assert pre[j] == sorted[j];
  }

  /** The endpoints of the j-th sorted edge are joined by kept edges that
      weigh no more than it does. */
  lemma LightSpans(sorted: seq<Edge>, j: nat)
    requires Sorted(sorted) && j < |sorted|
    ensures Reachable(EdgeLinks(Light(Greedy(sorted), sorted[j].weight)), sorted[j].from, sorted[j].to)
  {
    var acc := Greedy(sorted[..j + 1]);
    PrefixSpans(sorted, j);
    GreedyPrefix(sorted, j + 1);
    PrefixWeights(sorted, j);
    PrefixLight(acc, Greedy(sorted), sorted[j].weight);
    ReachableWithin(EdgeLinks(acc), EdgeLinks(Light(Greedy(sorted), sorted[j].weight)), sorted[j].from, sorted[j].to);
  }

  /** The cycle condition of a minimum spanning forest: every input edge's
      endpoints are joined inside the tree by edges no heavier than it, so
      no input edge could replace a heavier tree edge on that walk. */
  lemma KruskalLight(edges: seq<Edge>)
    ensures var mst := Greedy(SortByWeight(edges));
      forall k :: 0 <= k < |edges| ==>
        Reachable(EdgeLinks(Light(mst, edges[k].weight)), edges[k].from, edges[k].to)
  {
    var sorted := SortByWeight(edges);
    SortSorted(edges);
    SortPermutation(edges);
    forall k | 0 <= k < |edges|
      ensures Reachable(EdgeLinks(Light(Greedy(sorted), edges[k].weight)), edges[k].from, edges[k].to)
    {
      assert edges[k] in multiset(sorted);
      var j :| 0 <= j < |sorted| && sorted[j] == edges[k];
      LightSpans(sorted, j);
    }
  }

  // ------------------------------------------------- union-find bookkeeping

  /** The endpoints of a list of links: the keys kruskal's initialisation gives
      to parent and rank. */
  ghost function Ends<K>(links: seq<(K, K)>): set<K> {
    (set k | 0 <= k < |links| :: links[k].0) + (set k | 0 <= k < |links| :: links[k].1)
  }

  lemma EndsSnoc<K>(links: seq<(K, K)>, i: nat)
    requires i < |links|
    ensures Ends(links[..i + 1]) == Ends(links[..i]) + {links[i].0, links[i].1}
  {
    var a, b := links[..i + 1], links[..i];
    assert a[i] == links[i];
    forall x | x in Ends(a)
      ensures x in Ends(b) + {links[i].0, links[i].1}
    {
      if k :| 0 <= k < i && (a[k].0 == x || a[k].1 == x) {
        assert b[k] == a[k];
      }
    }
    forall x | x in Ends(b)
      ensures x in Ends(a)
    {
      var k :| 0 <= k < i && (b[k].0 == x || b[k].1 == x);
      assert a[k] == b[k];
    }
  }

  /** kept links join keys with equal roots. */
  ghost predicate LinksJoinRoots<K>(p: Parents<K>, rk: Ranks<K>, links: seq<(K, K)>)
    requires Valid(p, rk)
  {
    forall k :: 0 <= k < |links| ==>
      links[k].0 in p && links[k].1 in p && Root(p, rk, links[k].0) == Root(p, rk, links[k].1)
  }

  /** The union-find forest (p, rk) describes the components of links: equal
      roots are connected, connected keys have equal roots, and each link
      removed one root. */
  ghost predicate Forest<K(!new)>(p: Parents<K>, rk: Ranks<K>, links: seq<(K, K)>) {
    && Valid(p, rk)
    && LinksJoinRoots(p, rk, links)
    && (forall x, y {:trigger Root(p, rk, x), Root(p, rk, y)} ::
          x in p && y in p && Root(p, rk, x) == Root(p, rk, y) ==> Reachable(links, x, y))
    && |links| + |Roots(p)| == |p.Keys|
  }

  /** Walking along kept links never changes the root. */
  lemma {:induction false} ReachableSameRoot<K(!new)>(p: Parents<K>, rk: Ranks<K>, links: seq<(K, K)>, x: K, y: K)
    requires Valid(p, rk) && LinksJoinRoots(p, rk, links)
    requires x in p && Reachable(links, x, y)
    ensures y in p && Root(p, rk, x) == Root(p, rk, y)
  {
    var w :| Walk(links, w) && w[0] == x && w[|w| - 1] == y;
    var i := 0;
    while i < |w| - 1
      invariant 0 <= i < |w| && w[i] in p && Root(p, rk, w[i]) == Root(p, rk, x)
    {
      assert Adjacent(links, w[i], w[i + 1]);
      var k :| 0 <= k < |links| && Joins(links[k], w[i], w[i + 1]);
      i := i + 1;
    }
  }

  /** Every key its own root, no links. */
  lemma ForestInit<K(!new)>(p: Parents<K>, rk: Ranks<K>)
    requires p.Keys == rk.Keys
    requires forall x :: x in p ==> p[x] == x
    ensures Forest(p, rk, [])
  {
    assert Valid(p, rk);
    forall x, y | x in p && y in p && Root(p, rk, x) == Root(p, rk, y)
      ensures Reachable([], x, y)
    {
      RootOfRoot(p, rk, x);
      RootOfRoot(p, rk, y);
      ReachableRefl([], x);
    }
    assert Roots(p) == p.Keys;
  }

  /** A forest with the same roots describes the same components. */
  lemma ForestSameRoots<K(!new)>(p: Parents<K>, q: Parents<K>, rk: Ranks<K>, links: seq<(K, K)>)
    requires Forest(p, rk, links) && Valid(q, rk) && SameRoots(q, p, rk)
    ensures Forest(q, rk, links)
  {
    SameRootsRoots(q, p, rk);
    forall x, y | x in q && y in q && Root(q, rk, x) == Root(q, rk, y)
      ensures Reachable(links, x, y)
    {
      assert Root(p, rk, x) == Root(p, rk, y);
    }
    forall k | 0 <= k < |links|
      ensures Root(q, rk, links[k].0) == Root(q, rk, links[k].1)
    {
      assert Root(p, rk, links[k].0) == Root(p, rk, links[k].1);
    }
  }

  /** Keys with different roots are not yet connected: an edge between them
      closes no cycle. */
  lemma ForestSplit<K(!new)>(p: Parents<K>, rk: Ranks<K>, links: seq<(K, K)>, a: K, b: K)
    requires Forest(p, rk, links) && a in p && b in p
    ensures Root(p, rk, a) == Root(p, rk, b) <==> Reachable(links, a, b)
  {
    if Reachable(links, a, b) {
      ReachableSameRoot(p, rk, links, a, b);
    }
  }

  /** Keeping the link (a, b) between two trees is the reference union. */
  lemma ForestAccept<K(!new)>(p: Parents<K>, rk: Ranks<K>, links: seq<(K, K)>, a: K, b: K)
    requires Forest(p, rk, links) && a in p && b in p && Root(p, rk, a) != Root(p, rk, b)
    ensures Forest(MergedParent(p, rk, a, b), MergedRank(p, rk, a, b), links + [(a, b)])
  {
    var q, rq := MergedParent(p, rk, a, b), MergedRank(p, rk, a, b);
    var more := links + [(a, b)];
    var r1, r2, w := Root(p, rk, a), Root(p, rk, b), Winner(p, rk, a, b);
    MergeRoots(p, rk, a, b);
    MergeRootCount(p, rk, a, b);
    forall k | 0 <= k < |more|
      ensures more[k].0 in q && more[k].1 in q && Root(q, rq, more[k].0) == Root(q, rq, more[k].1)
    {
      if k < |links| {
        assert more[k] == links[k];
      }
    }
    assert Adjacent(more, a, b) by { assert Joins(more[|links|], a, b); }
    forall x, y | x in q && y in q && Root(q, rq, x) == Root(q, rq, y)
      ensures Reachable(more, x, y)
    {
      var rx, ry := Root(p, rk, x), Root(p, rk, y);
      if rx == ry {
        ReachableGrow(links, [(a, b)], x, y);
      } else {
        assert (rx == r1 || rx == r2) && (ry == r1 || ry == r2);
        if rx == r1 {
          ConnectVia(p, rk, links, x, a, b, y);
        } else {
          ConnectVia(p, rk, links, y, a, b, x);
          ReachableSymmetric(more, y, x);
        }
      }
    }
  }

  /** x in a's tree and y in b's tree are connected once (a, b) is kept. */
  lemma ConnectVia<K(!new)>(p: Parents<K>, rk: Ranks<K>, links: seq<(K, K)>, x: K, a: K, b: K, y: K)
    requires Forest(p, rk, links) && x in p && y in p && a in p && b in p
    requires Root(p, rk, x) == Root(p, rk, a) && Root(p, rk, y) == Root(p, rk, b)
    ensures Reachable(links + [(a, b)], x, y)
  {
    var more := links + [(a, b)];
    ReachableGrow(links, [(a, b)], x, a);
    ReachableGrow(links, [(a, b)], b, y);
    assert Adjacent(more, a, b) by { assert Joins(more[|links|], a, b); }
    ReachableStep(more, x, a, b);
    ReachableTransitive(more, x, b, y);
  }

  /** A forest over n keys with some key has at least one root, so fewer links
      than keys. */
  lemma ForestBound<K(!new)>(p: Parents<K>, rk: Ranks<K>, links: seq<(K, K)>)
    requires Forest(p, rk, links) && p != map[]
    ensures |links| < |p.Keys|
  {
    RootsNonEmpty(p, rk);
  }

  /** find(x) compresses a path and keeps every root. */
  lemma FindKeepsForest<K(!new)>(p0: Parents<K>, p1: Parents<K>, rk: Ranks<K>, links: seq<(K, K)>, x: K)
    requires Forest(p0, rk, links) && x in p0 && p1 == Compressed(p0, rk, x)
    ensures Forest(p1, rk, links) && p1.Keys == p0.Keys && SameRoots(p1, p0, rk)
  {
    CompressedRoots(p0, rk, x);
    ForestSameRoots(p0, p1, rk, links);
  }

  /** The two finds of one round, find(a) then find(b): the forest still
      describes the kept links, and the roots found differ exactly when a and b
      are not yet connected. */
  lemma FindBoth<K(!new)>(p0: Parents<K>, p1: Parents<K>, p2: Parents<K>, rk: Ranks<K>, links: seq<(K, K)>, a: K, b: K)
    requires Forest(p0, rk, links) && a in p0 && b in p0
    requires p1 == Compressed(p0, rk, a)
    requires Valid(p1, rk) && p2 == Compressed(p1, rk, b)
    ensures Forest(p2, rk, links) && p2.Keys == p0.Keys
    ensures Root(p0, rk, a) == Root(p2, rk, a) && Root(p1, rk, b) == Root(p2, rk, b)
    ensures Root(p0, rk, a) == Root(p1, rk, b) <==> Reachable(links, a, b)
  {
    FindKeepsForest(p0, p1, rk, links, a);
    FindKeepsForest(p1, p2, rk, links, b);
    SameRootsTransitive(p2, p1, p0, rk);
    ForestSplit(p2, rk, links, a, b);
  }

  /** union(a, b) of two trees leaves a forest that also describes the link (a, b). */
  lemma UnionKeepsForest<K(!new)>(p: Parents<K>, rk: Ranks<K>, np: Parents<K>, nr: Ranks<K>, links: seq<(K, K)>, a: K, b: K)
    requires Forest(p, rk, links) && a in p && b in p && Root(p, rk, a) != Root(p, rk, b)
    requires UnionDone(p, rk, a, b, np, nr)
    ensures Forest(np, nr, links + [(a, b)]) && np.Keys == p.Keys
  {
    ForestAccept(p, rk, links, a, b);
    ForestSameRoots(MergedParent(p, rk, a, b), np, nr, links + [(a, b)]);
  }

  /** One more scanned edge: Greedy keeps it exactly when its endpoints are not
      yet connected. */
  lemma GreedySnoc(es: seq<Edge>, i: nat)
    requires i < |es|
    ensures Greedy(es[..i + 1]) ==
      if Reachable(EdgeLinks(Greedy(es[..i])), es[i].from, es[i].to) then Greedy(es[..i])
      else Greedy(es[..i]) + [es[i]]
  {
    assert es[..i + 1][..i] == es[..i];
  }

  // ----------------------------------------------------------------- kruskal

  /** Lines 85-95: every endpoint becomes its own root, with rank 0. */
  method Init(sorted: seq<Edge>) returns (uf: UnionFind<NodeId>)
    ensures fresh(uf)
    ensures Forest(uf.parent, uf.rank, []) && uf.parent.Keys == Ends(EdgeLinks(sorted))
  {
    ghost var links := EdgeLinks(sorted);
    uf := new UnionFind<NodeId>();
    for i := 0 to |sorted|
      invariant uf.parent.Keys == uf.rank.Keys == Ends(links[..i])
      invariant forall x :: x in uf.parent ==> uf.parent[x] == x
    {
      var e := sorted[i];
      uf.parent := uf.parent[e.from := e.from][e.to := e.to];
      uf.rank := uf.rank[e.from := 0][e.to := 0];
      EndsSnoc(links, i);
    }
    assert links[..|sorted|] == links;
    ForestInit(uf.parent, uf.rank);
  }

  /** One round of the loop at lines 125-137: push e exactly when find gives
      its endpoints different roots, and then union them. */
  method Consider(uf: UnionFind<NodeId>, mst: seq<Edge>, e: Edge) returns (mst': seq<Edge>)
    requires Forest(uf.parent, uf.rank, EdgeLinks(mst)) && e.from in uf.parent && e.to in uf.parent
    modifies uf
    ensures Forest(uf.parent, uf.rank, EdgeLinks(mst')) && uf.parent.Keys == old(uf.parent.Keys)
    ensures mst' == if Reachable(EdgeLinks(mst), e.from, e.to) then mst else mst + [e]
  {
    ghost var p0 := uf.parent;
    var r1 := uf.Find(e.from);
    ghost var p1 := uf.parent;
    CompressedRoots(p0, uf.rank, e.from);
    var r2 := uf.Find(e.to);
    FindBoth(p0, p1, uf.parent, uf.rank, EdgeLinks(mst), e.from, e.to);
    ghost var p2, rk2 := uf.parent, uf.rank;
    if r1 != r2 {
      uf.Union(e.from, e.to);
      UnionKeepsForest(p2, rk2, uf.parent, uf.rank, EdgeLinks(mst), e.from, e.to);
      LinksSnoc(mst, e);
      mst' := mst + [e];
    } else {
      mst' := mst;
    }
  }

  /** kruskal(): the edges pushed to mstEdges, in push order. */
  method Kruskal(edges: seq<Edge>) returns (mst: seq<Edge>)
    ensures mst == Greedy(SortByWeight(edges))
    ensures |edges| > 0 ==> |mst| < |Ends(EdgeLinks(edges))|
    ensures |edges| > 0 && Connected(EdgeLinks(edges)) ==> |mst| == |Ends(EdgeLinks(edges))| - 1
    ensures forall k :: 0 <= k < |edges| ==>
      Reachable(EdgeLinks(Light(mst, edges[k].weight)), edges[k].from, edges[k].to)
  {
    var sorted := SortByWeight(edges);
    ghost var links := EdgeLinks(sorted);
    var uf := Init(sorted);
    mst := [];
    for i := 0 to |sorted|
      invariant uf.parent.Keys == Ends(links)
      invariant Forest(uf.parent, uf.rank, EdgeLinks(mst))
      invariant mst == Greedy(sorted[..i])
    {
      EndsContain(links, i);
      GreedySnoc(sorted, i);
      mst := Consider(uf, mst, sorted[i]);
    }
    assert sorted[..|sorted|] == sorted;
    KruskalResult(edges, sorted, uf.parent, uf.rank, mst);
  }

  /** What the forest left by the loop tells about the kept edges. */
  lemma KruskalResult(edges: seq<Edge>, sorted: seq<Edge>, p: Parents<NodeId>, rk: Ranks<NodeId>, mst: seq<Edge>)
    requires sorted == SortByWeight(edges) && mst == Greedy(sorted)
    requires Forest(p, rk, EdgeLinks(mst)) && p.Keys == Ends(EdgeLinks(sorted))
    ensures |edges| > 0 ==> |mst| < |Ends(EdgeLinks(edges))|
    ensures |edges| > 0 && Connected(EdgeLinks(edges)) ==> |mst| == |Ends(EdgeLinks(edges))| - 1
    ensures forall k :: 0 <= k < |edges| ==>
      Reachable(EdgeLinks(Light(mst, edges[k].weight)), edges[k].from, edges[k].to)
  {
    KruskalBound(edges, sorted, p, rk, EdgeLinks(mst));
    if |edges| > 0 && Connected(EdgeLinks(edges)) {
      KruskalConnected(edges, sorted, p, rk, mst);
    }
    KruskalLight(edges);
  }

  lemma EndsContain<K>(links: seq<(K, K)>, i: nat)
    requires i < |links|
    ensures links[i].0 in Ends(links) && links[i].1 in Ends(links)
  {
  }

  /** The forest left over the sorted list's endpoints bounds the tree's size. */
  lemma KruskalBound(edges: seq<Edge>, sorted: seq<Edge>, p: Parents<NodeId>, rk: Ranks<NodeId>, kept: seq<Link>)
    requires sorted == SortByWeight(edges)
    requires Forest(p, rk, kept) && p.Keys == Ends(EdgeLinks(sorted))
    ensures |edges| > 0 ==> |kept| < |Ends(EdgeLinks(edges))|
  {
    if |edges| > 0 {
      SortPermutation(edges);
      EndsPermutation(edges, sorted);
      EndsContain(EdgeLinks(sorted), 0);
      ForestBound(p, rk, kept);
    }
  }

  /** Every two endpoints of the links are joined by a walk: the drawn graph
      is one connected component. */
  ghost predicate Connected<K(!new)>(links: seq<(K, K)>) {
    forall x, y :: x in Ends(links) && y in Ends(links) ==> Reachable(links, x, y)
  }

  /** A forest whose links span every link of a connected graph over its
      keys has one root. */
  lemma ConnectedOneRoot<K(!new)>(p: Parents<K>, rk: Ranks<K>, kept: seq<(K, K)>, links: seq<(K, K)>, x0: K)
    requires Valid(p, rk) && LinksJoinRoots(p, rk, kept) && p.Keys == Ends(links)
    requires forall k :: 0 <= k < |links| ==> Reachable(kept, links[k].0, links[k].1)
    requires Connected(links) && x0 in p
    ensures Roots(p) == {Root(p, rk, x0)}
  {
    var r := Root(p, rk, x0);
    var s := set y | y in p && Root(p, rk, y) == r;
    forall u, v | u in s && Adjacent(links, u, v)
      ensures v in s
    {
      var k :| 0 <= k < |links| && Joins(links[k], u, v);
      EndsContain(links, k);
      ReachableSameRoot(p, rk, kept, links[k].0, links[k].1);
    }
    forall x | x in Roots(p)
      ensures x == r
    {
      ClosedContainsReachable(links, s, x0, x);
      RootOfRoot(p, rk, x);
    }
  }

  /** On a connected edge list the loop leaves one root, so the tree has one
      edge fewer than there are nodes on the edges. */
  lemma KruskalConnected(edges: seq<Edge>, sorted: seq<Edge>, p: Parents<NodeId>, rk: Ranks<NodeId>, mst: seq<Edge>)
    requires sorted == SortByWeight(edges) && mst == Greedy(sorted)
    requires Forest(p, rk, EdgeLinks(mst)) && p.Keys == Ends(EdgeLinks(sorted))
    requires |edges| > 0 && Connected(EdgeLinks(edges))
    ensures |mst| == |Ends(EdgeLinks(edges))| - 1
  {
    var links, kept := EdgeLinks(edges), EdgeLinks(mst);
    SortPermutation(edges);
    EndsPermutation(edges, sorted);
    KruskalSpansLinks(edges);
    EndsContain(links, 0);
    ConnectedOneRoot(p, rk, kept, links, edges[0].from);
  }

  lemma KruskalSpansLinks(edges: seq<Edge>)
    ensures var kept := EdgeLinks(Greedy(SortByWeight(edges)));
      forall k :: 0 <= k < |EdgeLinks(edges)| ==> Reachable(kept, EdgeLinks(edges)[k].0, EdgeLinks(edges)[k].1)
  {
    KruskalTree(edges);
  }

  lemma EndsPermutation(a: seq<Edge>, b: seq<Edge>)
    requires multiset(a) == multiset(b)
    ensures Ends(EdgeLinks(a)) == Ends(EdgeLinks(b))
  {
    forall x | x in Ends(EdgeLinks(a))
      ensures x in Ends(EdgeLinks(b))
    {
      var k :| 0 <= k < |a| && (a[k].from == x || a[k].to == x);
      assert a[k] in multiset(b);
      var j :| 0 <= j < |b| && b[j] == a[k];
      assert EdgeLinks(b)[j] == (b[j].from, b[j].to);
    }
    forall x | x in Ends(EdgeLinks(b))
      ensures x in Ends(EdgeLinks(a))
    {
      var k :| 0 <= k < |b| && (b[k].from == x || b[k].to == x);
      assert b[k] in multiset(a);
      var j :| 0 <= j < |a| && a[j] == b[k];
      assert EdgeLinks(a)[j] == (a[j].from, a[j].to);
    }
  }

  // ----------------------------------------------------------------- example

  function TotalWeight(es: seq<Edge>): int {
    if |es| == 0 then 0 else TotalWeight(es[..|es| - 1]) + es[|es| - 1].weight
  }

  lemma WalkReaches<K(!new)>(links: seq<(K, K)>, p: seq<K>)
    requires Walk(links, p)
    ensures Reachable(links, p[0], p[|p| - 1])
  {
  }

  lemma ClosedSeparates<K(!new)>(links: seq<(K, K)>, s: set<K>, x: K, y: K)
    requires Closed(links, s) && x in s && y !in s
    ensures !Reachable(links, x, y)
  {
    if Reachable(links, x, y) {
      ClosedContainsReachable(links, s, x, y);
    }
  }

  /** The edge list addEdge builds for a-b (1), b-c (2), a-c (5): each edge in
      both directions. */
  function Triangle(a: NodeId, b: NodeId, c: NodeId): seq<Edge> {
    [Edge(a, b, "1", 1), Edge(b, a, "1", 1), Edge(b, c, "2", 2),
     Edge(c, b, "2", 2), Edge(a, c, "5", 5), Edge(c, a, "5", 5)]
  }

  lemma GreedyKeeps(es: seq<Edge>, i: nat, acc: seq<Edge>, links: seq<Link>)
    requires i < |es| && Greedy(es[..i]) == acc && EdgeLinks(acc) == links
    requires !Reachable(links, es[i].from, es[i].to)
    ensures Greedy(es[..i + 1]) == acc + [es[i]]
  {
    GreedySnoc(es, i);
  }

  lemma GreedySkips(es: seq<Edge>, i: nat, acc: seq<Edge>, links: seq<Link>)
    requires i < |es| && Greedy(es[..i]) == acc && EdgeLinks(acc) == links
    requires Reachable(links, es[i].from, es[i].to)
    ensures Greedy(es[..i + 1]) == acc
  {
    GreedySnoc(es, i);
  }

  lemma TriangleStep1(a: NodeId, b: NodeId, c: NodeId)
    requires a != b && b != c && a != c
    ensures Greedy(Triangle(a, b, c)[..1]) == [Edge(a, b, "1", 1)]
  {
    var es := Triangle(a, b, c);
    assert es[..0] == [];
    ClosedSeparates([], {a}, a, b);
    GreedyKeeps(es, 0, [], []);
  }

  lemma TriangleStep2(a: NodeId, b: NodeId, c: NodeId)
    requires a != b && b != c && a != c
    ensures Greedy(Triangle(a, b, c)[..2]) == [Edge(a, b, "1", 1)]
  {
    TriangleStep1(a, b, c);
    BackLink(a, b);
    GreedySkips(Triangle(a, b, c), 1, [Edge(a, b, "1", 1)], [(a, b)]);
  }

  lemma BackLink(a: NodeId, b: NodeId)
    ensures EdgeLinks([Edge(a, b, "1", 1)]) == [(a, b)]
    ensures Reachable([(a, b)], b, a)
  {
    var ab: seq<Link> := [(a, b)];
    assert Joins(ab[0], b, a);
    WalkReaches(ab, [b, a]);
  }

  lemma TriangleStep3(a: NodeId, b: NodeId, c: NodeId)
    requires a != b && b != c && a != c
    ensures Greedy(Triangle(a, b, c)[..3]) == [Edge(a, b, "1", 1), Edge(b, c, "2", 2)]
  {
    TriangleStep2(a, b, c);
    var ab: seq<Link> := [(a, b)];
    ClosedSeparates(ab, {a, b}, b, c);
    GreedyKeeps(Triangle(a, b, c), 2, [Edge(a, b, "1", 1)], ab);
  }

  /** The links of the two edges kept from the triangle. */
  lemma TrianglePath(a: NodeId, b: NodeId, c: NodeId)
    ensures EdgeLinks([Edge(a, b, "1", 1), Edge(b, c, "2", 2)]) == [(a, b), (b, c)]
    ensures Reachable([(a, b), (b, c)], c, b)
    ensures Reachable([(a, b), (b, c)], a, c)
    ensures Reachable([(a, b), (b, c)], c, a)
  {
    var abc: seq<(NodeId, NodeId)> := [(a, b), (b, c)];
    assert Joins(abc[0], a, b) && Joins(abc[1], b, c) && Joins(abc[1], c, b) && Joins(abc[0], b, a);
    WalkReaches(abc, [c, b]);
    WalkReaches(abc, [a, b, c]);
    WalkReaches(abc, [c, b, a]);
  }

  lemma TriangleRest(a: NodeId, b: NodeId, c: NodeId)
    requires a != b && b != c && a != c
    ensures Greedy(Triangle(a, b, c)) == [Edge(a, b, "1", 1), Edge(b, c, "2", 2)]
  {
    var es, kept := Triangle(a, b, c), [Edge(a, b, "1", 1), Edge(b, c, "2", 2)];
    TriangleStep3(a, b, c);
    TrianglePath(a, b, c);
    GreedySkips(es, 3, kept, [(a, b), (b, c)]);
    GreedySkips(es, 4, kept, [(a, b), (b, c)]);
    GreedySkips(es, 5, kept, [(a, b), (b, c)]);
    assert es[..6] == es;
  }

  /** For three distinct nodes, kruskal keeps a-b and b-c and skips every other
      edge: total weight 3. */
  lemma KruskalTriangle(a: NodeId, b: NodeId, c: NodeId)
    requires a != b && b != c && a != c
    ensures Greedy(SortByWeight(Triangle(a, b, c))) == [Edge(a, b, "1", 1), Edge(b, c, "2", 2)]
    ensures TotalWeight(Greedy(SortByWeight(Triangle(a, b, c)))) == 3
  {
    SortSortedIdentity(Triangle(a, b, c));
    TriangleRest(a, b, c);
    var t := [Edge(a, b, "1", 1), Edge(b, c, "2", 2)];
    assert t[..1] == [t[0]];
    assert TotalWeight(t) == TotalWeight([t[0]]) + 2;
  }
}
