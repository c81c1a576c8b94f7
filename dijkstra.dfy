/** dijkstra (tasks/task4/script.js): shortest paths over undirected weighted
    edges with a distance table, a predecessor table and a Set of unsettled
    nodes, stopping as soon as the target is selected. The tables are finite
    maps; the Set is a sequence in insertion order, since `Array.from(queue)`
    is what the selection scans. */
module Dijkstra {
  import opened Graph

  /** An undirected weighted edge between node ids of type K. */
  datatype Road<K> = Road(from: K, to: K, weight: int)

  /** The edge list as dijkstra reads it: endpoints and weight. */
  function Roads(edges: seq<Edge>): (rs: seq<Road<NodeId>>)
    ensures |rs| == |edges|
    ensures forall k :: 0 <= k < |edges| ==> rs[k] == Road(edges[k].from, edges[k].to, edges[k].weight)
  {
    seq(|edges|, k requires 0 <= k < |edges| => Road(edges[k].from, edges[k].to, edges[k].weight))
  }

  /** The edge joins u and v, in either direction. */
  predicate Touches<K(==)>(r: Road<K>, u: K, v: K) {
    (r.from == u && r.to == v) || (r.from == v && r.to == u)
  }

  // -------------------------------------------------------------- selection

  /** `Array.from(queue).reduce((m, x) => dist[x] < dist[m] ? x : m)`: the
      position the fold ends on. */
  function MinIndex<K(==)>(q: seq<K>, dist: map<K, Ext>): (k: nat)
    requires |q| > 0 && forall i :: 0 <= i < |q| ==> q[i] in dist
    ensures k < |q|
    decreases |q|
  {
    if |q| == 1 then 0
    else
      var m := MinIndex(q[..|q| - 1], dist);
      if dist[q[|q| - 1]].Below(dist[q[m]]) then |q| - 1 else m
  }

  /** The fold selects a least distance, and the first one: it replaces its
      choice only on a strictly smaller distance. */
  lemma {:induction false} MinIndexFirstMin<K>(q: seq<K>, dist: map<K, Ext>)
    requires |q| > 0 && forall i :: 0 <= i < |q| ==> q[i] in dist
    ensures var k := MinIndex(q, dist);
      && (forall i :: 0 <= i < |q| ==> dist[q[k]].AtMost(dist[q[i]]))
      && (forall i :: 0 <= i < k ==> dist[q[k]].Below(dist[q[i]]))
    decreases |q|
  {
    if |q| > 1 {
      var init := q[..|q| - 1];
      MinIndexFirstMin(init, dist);
      var m := MinIndex(init, dist);
      assert forall i :: 0 <= i < |init| ==> init[i] == q[i];
    }
  }

  // ------------------------------------------------------------- relaxation

  /** The predecessor link u -> x: the finite distance of x is that of u plus
      the weight of an edge joining them. */
  ghost predicate Link<K(!new)>(roads: seq<Road<K>>, dist: map<K, Ext>, u: K, x: K)
    requires u in dist && x in dist
  {
    dist[x].Fin? && exists e :: 0 <= e < |roads| && Touches(roads[e], u, x) && dist[x] == dist[u].Plus(roads[e].weight)
  }

  /** After the first i edges of the relaxation loop from u. */
  ghost predicate RelaxInv<K(!new)>(roads: seq<Road<K>>, u: K, queue: seq<K>,
                                    dist: map<K, Ext>, prev: map<K, Option<K>>, i: int,
                                    dist': map<K, Ext>, prev': map<K, Option<K>>)
  {
    && u in dist && u !in queue && (forall x :: x in queue ==> x in dist && x in prev)
    && dist'.Keys == dist.Keys && prev'.Keys == prev.Keys && 0 <= i <= |roads|
    && (forall x :: x in dist && x !in queue ==> dist'[x] == dist[x])
    && (forall x :: x in prev && x !in queue ==> prev'[x] == prev[x])
    && (forall x :: x in queue ==> dist'[x].AtMost(dist[x]))
    && (forall x :: x in queue && dist'[x] == dist[x] ==> prev'[x] == prev[x])
    && (forall x :: x in queue && dist'[x] != dist[x] ==> prev'[x] == Some(u) && Link(roads, dist', u, x))
    && (forall e, x :: 0 <= e < i && x in queue && Touches(roads[e], u, x) ==>
          dist'[x].AtMost(dist[u].Plus(roads[e].weight)))
  }

  /** Lowering nb through u keeps every changed entry a link from u. */
  lemma LowerLinks<K(!new)>(roads: seq<Road<K>>, u: K, queue: seq<K>,
                            dist: map<K, Ext>, prev: map<K, Option<K>>, i: int,
                            dist': map<K, Ext>, prev': map<K, Option<K>>, nb: K)
    requires RelaxInv(roads, u, queue, dist, prev, i, dist', prev') && i < |roads|
    requires nb in queue && Touches(roads[i], u, nb)
    requires dist'[u].Plus(roads[i].weight).Below(dist'[nb])
    ensures var d2, p2 := dist'[nb := dist'[u].Plus(roads[i].weight)], prev'[nb := Some(u)];
      forall x :: x in queue && d2[x] != dist[x] ==> p2[x] == Some(u) && Link(roads, d2, u, x)
  {
    var d2, p2 := dist'[nb := dist'[u].Plus(roads[i].weight)], prev'[nb := Some(u)];
    assert Link(roads, d2, u, nb);
    forall x | x in queue && d2[x] != dist[x]
      ensures p2[x] == Some(u) && Link(roads, d2, u, x)
    {
      if x != nb {
        var e :| 0 <= e < |roads| && Touches(roads[e], u, x) && dist'[x] == dist'[u].Plus(roads[e].weight);
        assert d2[x] == d2[u].Plus(roads[e].weight);
      }
    }
  }

  /** Lowering nb through u bounds it by edge i as well. */
  lemma LowerBound<K(!new)>(roads: seq<Road<K>>, u: K, queue: seq<K>,
                            dist: map<K, Ext>, prev: map<K, Option<K>>, i: int,
                            dist': map<K, Ext>, prev': map<K, Option<K>>, nb: K)
    requires RelaxInv(roads, u, queue, dist, prev, i, dist', prev') && i < |roads|
    requires nb in queue && (roads[i].from == u || roads[i].to == u)
    requires nb == if roads[i].from == u then roads[i].to else roads[i].from
    requires dist'[u].Plus(roads[i].weight).Below(dist'[nb])
    ensures var d2 := dist'[nb := dist'[u].Plus(roads[i].weight)];
      forall e, x :: 0 <= e < i + 1 && x in queue && Touches(roads[e], u, x) ==>
        d2[x].AtMost(dist[u].Plus(roads[e].weight))
  {
    var d2 := dist'[nb := dist'[u].Plus(roads[i].weight)];
    forall e, x | 0 <= e < i + 1 && x in queue && Touches(roads[e], u, x)
      ensures d2[x].AtMost(dist[u].Plus(roads[e].weight))
    {
      if e == i {
        assert x == nb;
      }
    }
  }

  /** Edge i lowers the distance of the neighbour nb. */
  lemma RelaxLower<K(!new)>(roads: seq<Road<K>>, u: K, queue: seq<K>,
                            dist: map<K, Ext>, prev: map<K, Option<K>>, i: int,
                            dist': map<K, Ext>, prev': map<K, Option<K>>, nb: K)
    requires RelaxInv(roads, u, queue, dist, prev, i, dist', prev') && i < |roads|
    requires nb in queue && (roads[i].from == u || roads[i].to == u)
    requires nb == if roads[i].from == u then roads[i].to else roads[i].from
    requires dist'[u].Plus(roads[i].weight).Below(dist'[nb])
    ensures RelaxInv(roads, u, queue, dist, prev, i + 1,
                     dist'[nb := dist'[u].Plus(roads[i].weight)], prev'[nb := Some(u)])
  {
    LowerLinks(roads, u, queue, dist, prev, i, dist', prev', nb);
    LowerBound(roads, u, queue, dist, prev, i, dist', prev', nb);
  }

  /** Edge i leaves every distance as it is. */
  lemma RelaxKeep<K(!new)>(roads: seq<Road<K>>, u: K, queue: seq<K>,
                           dist: map<K, Ext>, prev: map<K, Option<K>>, i: int,
                           dist': map<K, Ext>, prev': map<K, Option<K>>)
    requires RelaxInv(roads, u, queue, dist, prev, i, dist', prev') && i < |roads|
    requires (roads[i].from == u || roads[i].to == u) ==>
      var nb := if roads[i].from == u then roads[i].to else roads[i].from;
      nb in queue ==> !dist'[u].Plus(roads[i].weight).Below(dist'[nb])
    ensures RelaxInv(roads, u, queue, dist, prev, i + 1, dist', prev')
  {
    forall e, x | 0 <= e < i + 1 && x in queue && Touches(roads[e], u, x)
      ensures dist'[x].AtMost(dist[u].Plus(roads[e].weight))
    {
      if e == i {
        var nb := if roads[i].from == u then roads[i].to else roads[i].from;
        assert x == nb;
      }
    }
  }

  /** The `edges.get().forEach` after u is deleted from the queue: each edge
      at u whose other end is still queued offers that end the distance of u
      plus the edge's weight, taken when strictly smaller. */
  method Relax<K(==,!new)>(roads: seq<Road<K>>, u: K, queue: seq<K>,
                           dist: map<K, Ext>, prev: map<K, Option<K>>)
    returns (dist': map<K, Ext>, prev': map<K, Option<K>>)
    requires u in dist && u !in queue && forall x :: x in queue ==> x in dist && x in prev
    ensures RelaxInv(roads, u, queue, dist, prev, |roads|, dist', prev')
  {
    dist', prev' := dist, prev;
    for i := 0 to |roads|
      invariant RelaxInv(roads, u, queue, dist, prev, i, dist', prev')
    {
      var r := roads[i];
      if r.from == u || r.to == u {
        var nb := if r.from == u then r.to else r.from;
        if nb in queue {
          var nd := dist'[u].Plus(r.weight);
          if nd.Below(dist'[nb]) {
            RelaxLower(roads, u, queue, dist, prev, i, dist', prev', nb);
            dist' := dist'[nb := nd];
            prev' := prev'[nb := Some(u)];
          } else {
            RelaxKeep(roads, u, queue, dist, prev, i, dist', prev');
          }
        } else {
          RelaxKeep(roads, u, queue, dist, prev, i, dist', prev');
        }
      } else {
        RelaxKeep(roads, u, queue, dist, prev, i, dist', prev');
      }
    }
  }

  // ---------------------------------------------------------------- routes

  /** p is a walk whose i-th step crosses edge es[i]. */
  ghost predicate Route<K(!new)>(roads: seq<Road<K>>, p: seq<K>, es: seq<int>) {
    |p| == |es| + 1
    && forall i :: 0 <= i < |es| ==> 0 <= es[i] < |roads| && Touches(roads[es[i]], p[i], p[i + 1])
  }

  /** The total weight of the edges es. */
  function Cost<K>(roads: seq<Road<K>>, es: seq<int>): int
    requires forall i :: 0 <= i < |es| ==> 0 <= es[i] < |roads|
    decreases |es|
  {
    if |es| == 0 then 0 else roads[es[0]].weight + Cost(roads, es[1..])
  }

  predicate NonNegative<K>(roads: seq<Road<K>>) {
    forall e :: 0 <= e < |roads| ==> roads[e].weight >= 0
  }

  /** Every node of p is a node of the graph. */
  ghost predicate Inside<K(!new)>(p: seq<K>, ids: seq<K>) {
    forall i :: 0 <= i < |p| ==> p[i] in ids
  }

  lemma {:induction false} CostSnoc<K>(roads: seq<Road<K>>, es: seq<int>, e: int)
    requires (forall i :: 0 <= i < |es| ==> 0 <= es[i] < |roads|) && 0 <= e < |roads|
    ensures Cost(roads, es + [e]) == Cost(roads, es) + roads[e].weight
    decreases |es|
  {
    if |es| > 0 {
      assert (es + [e])[1..] == es[1..] + [e];
      CostSnoc(roads, es[1..], e);
    }
  }

  lemma {:induction false} CostNonNegative<K>(roads: seq<Road<K>>, es: seq<int>)
    requires (forall i :: 0 <= i < |es| ==> 0 <= es[i] < |roads|) && NonNegative(roads)
    ensures Cost(roads, es) >= 0
    decreases |es|
  {
    if |es| > 0 {
      CostNonNegative(roads, es[1..]);
    }
  }

  /** With no negative weight, a walk's prefix costs no more than the walk. */
  lemma {:induction false} CostPrefix<K>(roads: seq<Road<K>>, es: seq<int>, j: nat)
    requires (forall i :: 0 <= i < |es| ==> 0 <= es[i] < |roads|) && NonNegative(roads) && j <= |es|
    ensures Cost(roads, es[..j]) <= Cost(roads, es)
    decreases |es|
  {
    if j == 0 {
      CostNonNegative(roads, es);
    } else {
      CostPrefix(roads, es[1..], j - 1);
      assert es[..j][1..] == es[1..][..j - 1];
    }
  }

  // ------------------------------------------------------------ invariants

  /** The nodes of the list not yet settled, in list order. */
  function Pending<K(==,!new)>(ids: seq<K>, done: seq<K>): (q: seq<K>)
    ensures forall x :: x in q <==> x in ids && x !in done
    ensures NoDup(ids) ==> NoDup(q)
  {
    if |ids| == 0 then []
    else (if ids[0] in done then [] else [ids[0]]) + Pending(ids[1..], done)
  }

  /** `queue.delete(u)`. */
  function Without<K(==,!new)>(q: seq<K>, u: K): (r: seq<K>)
    ensures forall x :: x in r <==> x in q && x != u
  {
    if |q| == 0 then [] else (if q[0] == u then [] else [q[0]]) + Without(q[1..], u)
  }

  lemma {:induction false} PendingWithout<K(!new)>(ids: seq<K>, done: seq<K>, u: K)
    ensures Without(Pending(ids, done), u) == Pending(ids, done + [u])
    decreases |ids|
  {
    if |ids| > 0 {
      PendingWithout(ids[1..], done, u);
      var head := if ids[0] in done then [] else [ids[0]];
      assert Pending(ids, done) == head + Pending(ids[1..], done);
      WithoutAppend(head, Pending(ids[1..], done), u);
    }
  }

  lemma {:induction false} WithoutAppend<K(!new)>(a: seq<K>, b: seq<K>, u: K)
    ensures Without(a + b, u) == Without(a, u) + Without(b, u)
    decreases |a|
  {
    if |a| > 0 {
      assert (a + b)[1..] == a[1..] + b;
      WithoutAppend(a[1..], b, u);
      var head := if a[0] == u then [] else [a[0]];
      assert Without(a + b, u) == head + Without(a[1..] + b, u);
      assert Without(a, u) == head + Without(a[1..], u);
    } else {
      assert a + b == b;
    }
  }

  lemma {:induction false} WithoutLength<K(!new)>(q: seq<K>, u: K)
    requires NoDup(q) && u in q
    ensures |Without(q, u)| == |q| - 1
    decreases |q|
  {
    if q[0] != u {
      assert NoDup(q[1..]);
      WithoutLength(q[1..], u);
    } else {
      WithoutAbsent(q[1..], u);
    }
  }

  lemma {:induction false} WithoutAbsent<K(!new)>(q: seq<K>, u: K)
    requires u !in q
    ensures Without(q, u) == q
    decreases |q|
  {
    if |q| > 0 {
      WithoutAbsent(q[1..], u);
      assert q == [q[0]] + q[1..];
    }
  }

  /** x's predecessor y was settled, before x if x is settled, and the
      distance of x is that of y plus an edge joining them. */
  ghost predicate Linked<K(!new)>(roads: seq<Road<K>>, visits: seq<K>, dist: map<K, Ext>,
                                  prev: map<K, Option<K>>, x: K)
    requires x in prev && x in dist
  {
    prev[x].Some? ==>
      var y := prev[x].value;
      && y in visits && y in dist
      && (x in visits ==> Pos(visits, y) < Pos(visits, x))
      && Link(roads, dist, y, x)
  }

  /** Every queued node's distance is no more than any settled neighbour's
      plus the edge between them. */
  ghost predicate Relaxed<K(!new)>(roads: seq<Road<K>>, queue: seq<K>, visits: seq<K>, dist: map<K, Ext>)
    requires forall x :: x in queue ==> x in dist
    requires forall x :: x in visits ==> x in dist
  {
    forall x, y, e :: x in queue && y in visits && 0 <= e < |roads| && Touches(roads[e], y, x) ==>
      dist[x].AtMost(dist[y].Plus(roads[e].weight))
  }

  /** No walk from start to x through graph nodes costs less than d. */
  ghost predicate Least<K(!new)>(roads: seq<Road<K>>, ids: seq<K>, start: K, x: K, d: Ext) {
    forall p, es :: Route(roads, p, es) && p[0] == start && p[|p| - 1] == x && Inside(p, ids) ==>
      d.AtMost(Fin(Cost(roads, es)))
  }

  /** dist[x] is the least cost of a walk from start to x. */
  ghost predicate Shortest<K(!new)>(roads: seq<Road<K>>, ids: seq<K>, start: K, dist: map<K, Ext>, x: K)
    requires x in dist
  {
    Least(roads, ids, start, x, dist[x])
  }

  /** The first j + 1 nodes of a route, with their j edges. */
  lemma RoutePrefix<K(!new)>(roads: seq<Road<K>>, p: seq<K>, es: seq<int>, j: nat)
    requires Route(roads, p, es) && 1 <= j <= |p|
    ensures Route(roads, p[..j], es[..j - 1])
  {
    var q, fs := p[..j], es[..j - 1];
    forall i | 0 <= i < |fs|
      ensures 0 <= fs[i] < |roads| && Touches(roads[fs[i]], q[i], q[i + 1])
    {
      assert fs[i] == es[i] && q[i] == p[i] && q[i + 1] == p[i + 1];
    }
  }

  // -------------------------------------------------------- loop invariant

  /** The tables and the queue: dist has every node and start, prev every
      node; the queue holds the unsettled nodes in list order. */
  ghost predicate Shape<K(!new)>(ids: seq<K>, start: K, queue: seq<K>, visits: seq<K>,
                                 dist: map<K, Ext>, prev: map<K, Option<K>>)
  {
    && NoDup(ids) && queue == Pending(ids, visits) && NoDup(visits) && |queue| + |visits| == |ids|
    && (forall x :: x in visits ==> x in ids)
    && (forall x :: x in dist <==> x in ids || x == start)
    && (forall x :: x in prev <==> x in ids)
  }

  /** While start is queued nothing is settled and every other node is at
      Infinity; the start keeps distance 0 and no predecessor, and it is the
      only node with a finite distance and no predecessor. */
  ghost predicate Origin<K(!new)>(ids: seq<K>, start: K, queue: seq<K>, visits: seq<K>,
                                  dist: map<K, Ext>, prev: map<K, Option<K>>)
    requires Shape(ids, start, queue, visits, dist, prev)
  {
    && (start in queue ==> visits == [] && forall x :: x in ids && x != start ==> dist[x] == Inf)
    && (start in ids ==> prev[start] == None && dist[start] == Fin(0))
    && (forall x :: x in ids && prev[x] == None && dist[x].Fin? ==> x == start)
  }

  /** Every predecessor link is a settled node and an edge. */
  ghost predicate Chains<K(!new)>(ids: seq<K>, roads: seq<Road<K>>, start: K, queue: seq<K>, visits: seq<K>,
                                  dist: map<K, Ext>, prev: map<K, Option<K>>)
    requires Shape(ids, start, queue, visits, dist, prev)
  {
    forall x :: x in ids ==> Linked(roads, visits, dist, prev, x)
  }

  /** With no negative weight, every settled node has its shortest distance. */
  ghost predicate Optimal<K(!new)>(ids: seq<K>, roads: seq<Road<K>>, start: K, queue: seq<K>, visits: seq<K>,
                                   dist: map<K, Ext>, prev: map<K, Option<K>>)
    requires Shape(ids, start, queue, visits, dist, prev)
  {
    NonNegative(roads) ==> forall x :: x in visits ==> Shortest(roads, ids, start, dist, x)
  }

  /** The invariant of the `while (queue.size)` loop. */
  ghost predicate Progress<K(!new)>(ids: seq<K>, roads: seq<Road<K>>, start: K, end: K, queue: seq<K>,
                                    visits: seq<K>, dist: map<K, Ext>, prev: map<K, Option<K>>)
  {
    && Shape(ids, start, queue, visits, dist, prev)
    && end !in visits
    && Origin(ids, start, queue, visits, dist, prev)
    && Chains(ids, roads, start, queue, visits, dist, prev)
    && Relaxed(roads, queue, visits, dist)
    && Optimal(ids, roads, start, queue, visits, dist, prev)
  }

  /** The first queued node of a walk from start is start itself: the walk
      costs at least its distance 0. */
  lemma ViaStart<K(!new)>(roads: seq<Road<K>>, start: K, dist: map<K, Ext>, u: K, es: seq<int>)
    requires start in dist && u in dist && dist[start] == Fin(0) && dist[u].AtMost(dist[start])
    requires NonNegative(roads) && forall i :: 0 <= i < |es| ==> 0 <= es[i] < |roads|
    ensures dist[u].AtMost(Fin(Cost(roads, es)))
  {
    CostNonNegative(roads, es);
  }

  /** The first queued node z of a walk from start follows a settled node y:
      the walk to z costs at least the shortest distance of y plus the edge,
      which bounds the distance of z. */
  lemma ViaSettled<K(!new)>(roads: seq<Road<K>>, ids: seq<K>, start: K, dist: map<K, Ext>,
                            u: K, y: K, z: K, p: seq<K>, es: seq<int>, j: nat)
    requires y in dist && z in dist && u in dist && dist[u].AtMost(dist[z])
    requires NonNegative(roads) && Route(roads, p, es) && p[0] == start && Inside(p, ids)
    requires 0 < j < |p| && p[j - 1] == y && p[j] == z
    requires Shortest(roads, ids, start, dist, y)
    requires dist[z].AtMost(dist[y].Plus(roads[es[j - 1]].weight))
    ensures dist[u].AtMost(Fin(Cost(roads, es)))
  {
    CostPrefix(roads, es, j);
    RoutePrefix(roads, p, es, j);
    assert p[..j][0] == start && p[..j][j - 1] == y;
    assert Inside(p[..j], ids) by {
      assert forall i :: 0 <= i < j ==> p[..j][i] == p[i];
    }
    assert dist[y].AtMost(Fin(Cost(roads, es[..j - 1])));
    assert es[..j] == es[..j - 1] + [es[j - 1]];
    CostSnoc(roads, es[..j - 1], es[j - 1]);
  }

  /** A queued node of least distance, when the weights are not negative,
      already has its shortest distance: a shorter walk would leave the
      settled nodes through an edge that was relaxed. */
  lemma ShortestVia<K(!new)>(ids: seq<K>, roads: seq<Road<K>>, start: K, queue: seq<K>, visits: seq<K>,
                             dist: map<K, Ext>, prev: map<K, Option<K>>, u: K, p: seq<K>, es: seq<int>)
    requires Shape(ids, start, queue, visits, dist, prev) && Origin(ids, start, queue, visits, dist, prev)
    requires Relaxed(roads, queue, visits, dist) && Optimal(ids, roads, start, queue, visits, dist, prev)
    requires NonNegative(roads)
    requires u in queue && forall i :: 0 <= i < |queue| ==> dist[u].AtMost(dist[queue[i]])
    requires Route(roads, p, es) && p[0] == start && p[|p| - 1] == u && Inside(p, ids)
    ensures dist[u].AtMost(Fin(Cost(roads, es)))
  {
    var j := 0;
    while p[j] !in queue
      invariant 0 <= j < |p| && forall i :: 0 <= i < j ==> p[i] !in queue
      decreases |p| - j
    {
      j := j + 1;
    }
    var z := p[j];
    assert dist[u].AtMost(dist[z]) by {
      assert queue[Pos(queue, z)] == z;
    }
    if j == 0 {
      ViaStart(roads, start, dist, u, es);
    } else {
      var y := p[j - 1];
      assert y in ids && y !in queue;
      assert y in visits;
      assert Touches(roads[es[j - 1]], y, z);
      ViaSettled(roads, ids, start, dist, u, y, z, p, es, j);
    }
  }

  lemma SelectShortest<K(!new)>(ids: seq<K>, roads: seq<Road<K>>, start: K, queue: seq<K>, visits: seq<K>,
                                dist: map<K, Ext>, prev: map<K, Option<K>>, u: K)
    requires Shape(ids, start, queue, visits, dist, prev) && Origin(ids, start, queue, visits, dist, prev)
    requires Relaxed(roads, queue, visits, dist) && Optimal(ids, roads, start, queue, visits, dist, prev)
    requires NonNegative(roads)
    requires u in queue && forall i :: 0 <= i < |queue| ==> dist[u].AtMost(dist[queue[i]])
    ensures Shortest(roads, ids, start, dist, u)
  {
    forall p, es | Route(roads, p, es) && p[0] == start && p[|p| - 1] == u && Inside(p, ids)
      ensures dist[u].AtMost(Fin(Cost(roads, es)))
    {
      ShortestVia(ids, roads, start, queue, visits, dist, prev, u, p, es);
    }
  }

  // ------------------------------------------------------------ one round

  /** One round of the loop: u is a queued node of least distance other than
      end, and the relaxation from u has run over the queue without u. */
  ghost predicate Step<K(!new)>(ids: seq<K>, roads: seq<Road<K>>, start: K, end: K, queue: seq<K>,
                                visits: seq<K>, dist: map<K, Ext>, prev: map<K, Option<K>>, u: K,
                                dist': map<K, Ext>, prev': map<K, Option<K>>)
  {
    && Progress(ids, roads, start, end, queue, visits, dist, prev)
    && u in queue && u != end
    && (forall i :: 0 <= i < |queue| ==> dist[u].AtMost(dist[queue[i]]))
    && RelaxInv(roads, u, Without(queue, u), dist, prev, |roads|, dist', prev')
  }

  lemma SettleShape<K(!new)>(ids: seq<K>, roads: seq<Road<K>>, start: K, end: K, queue: seq<K>,
                             visits: seq<K>, dist: map<K, Ext>, prev: map<K, Option<K>>, u: K,
                             dist': map<K, Ext>, prev': map<K, Option<K>>)
    requires Step(ids, roads, start, end, queue, visits, dist, prev, u, dist', prev')
    ensures Shape(ids, start, Without(queue, u), visits + [u], dist', prev') && end !in visits + [u]
  {
    PendingWithout(ids, visits, u);
    WithoutLength(queue, u);
    assert u !in visits;
  }

  /** The start is settled in the first round whenever it is a node. */
  lemma StartFirst<K(!new)>(ids: seq<K>, roads: seq<Road<K>>, start: K, end: K, queue: seq<K>,
                            visits: seq<K>, dist: map<K, Ext>, prev: map<K, Option<K>>, u: K,
                            dist': map<K, Ext>, prev': map<K, Option<K>>)
    requires Step(ids, roads, start, end, queue, visits, dist, prev, u, dist', prev')
    ensures start !in Without(queue, u)
  {
    if start in queue {
      assert dist[u].AtMost(dist[start]) by {
        assert queue[Pos(queue, start)] == start;
      }
    }
  }

  lemma SettleOrigin<K(!new)>(ids: seq<K>, roads: seq<Road<K>>, start: K, queue: seq<K>,
                              visits: seq<K>, dist: map<K, Ext>, prev: map<K, Option<K>>, u: K,
                              dist': map<K, Ext>, prev': map<K, Option<K>>)
    requires Shape(ids, start, queue, visits, dist, prev) && Origin(ids, start, queue, visits, dist, prev)
    requires RelaxInv(roads, u, Without(queue, u), dist, prev, |roads|, dist', prev')
    requires Shape(ids, start, Without(queue, u), visits + [u], dist', prev')
    requires start !in Without(queue, u)
    ensures Origin(ids, start, Without(queue, u), visits + [u], dist', prev')
  {
    var q' := Without(queue, u);
    forall x | x in ids && prev'[x] == None && dist'[x].Fin?
      ensures x == start
    {
      if x in q' {
        assert dist'[x] == dist[x];
      }
    }
  }

  lemma LinkedAfter<K(!new)>(ids: seq<K>, roads: seq<Road<K>>, start: K, end: K, queue: seq<K>,
                             visits: seq<K>, dist: map<K, Ext>, prev: map<K, Option<K>>, u: K,
                             dist': map<K, Ext>, prev': map<K, Option<K>>, x: K)
    requires Step(ids, roads, start, end, queue, visits, dist, prev, u, dist', prev')
    requires Shape(ids, start, Without(queue, u), visits + [u], dist', prev')
    requires x in ids
    ensures Linked(roads, visits + [u], dist', prev', x)
  {
    var q', v' := Without(queue, u), visits + [u];
    if prev'[x].Some? {
      var y := prev'[x].value;
      if x in q' && dist'[x] != dist[x] {
        assert y == u;
      } else {
        assert prev'[x] == prev[x];
        assert Linked(roads, visits, dist, prev, x);
        assert y in visits && y !in q';
        var e :| 0 <= e < |roads| && Touches(roads[e], y, x) && dist[x] == dist[y].Plus(roads[e].weight);
        assert dist'[x] == dist'[y].Plus(roads[e].weight);
        assert v'[Pos(visits, y)] == y;
        if x in visits {
          assert v'[Pos(visits, x)] == x;
        } else if x == u {
          assert v'[|visits|] == x;
        }
      }
    }
  }

  lemma SettleChains<K(!new)>(ids: seq<K>, roads: seq<Road<K>>, start: K, end: K, queue: seq<K>,
                              visits: seq<K>, dist: map<K, Ext>, prev: map<K, Option<K>>, u: K,
                              dist': map<K, Ext>, prev': map<K, Option<K>>)
    requires Step(ids, roads, start, end, queue, visits, dist, prev, u, dist', prev')
    requires Shape(ids, start, Without(queue, u), visits + [u], dist', prev')
    ensures Chains(ids, roads, start, Without(queue, u), visits + [u], dist', prev')
  {
    forall x | x in ids
      ensures Linked(roads, visits + [u], dist', prev', x)
    {
      LinkedAfter(ids, roads, start, end, queue, visits, dist, prev, u, dist', prev', x);
    }
  }

  /** A settled neighbour y and edge e still bound the distance of a queued x. */
  lemma RelaxedPair<K(!new)>(roads: seq<Road<K>>, u: K, q': seq<K>, dist: map<K, Ext>, prev: map<K, Option<K>>,
                             dist': map<K, Ext>, prev': map<K, Option<K>>, x: K, y: K, e: int)
    requires RelaxInv(roads, u, q', dist, prev, |roads|, dist', prev')
    requires x in q' && y !in q' && y in dist && 0 <= e < |roads| && Touches(roads[e], y, x)
    requires y == u || dist[x].AtMost(dist[y].Plus(roads[e].weight))
    ensures dist'[x].AtMost(dist'[y].Plus(roads[e].weight))
  {
  }

  lemma SettleRelaxed<K(!new)>(ids: seq<K>, roads: seq<Road<K>>, start: K, queue: seq<K>,
                               visits: seq<K>, dist: map<K, Ext>, prev: map<K, Option<K>>, u: K,
                               dist': map<K, Ext>, prev': map<K, Option<K>>)
    requires Shape(ids, start, queue, visits, dist, prev) && Relaxed(roads, queue, visits, dist) && u in queue
    requires RelaxInv(roads, u, Without(queue, u), dist, prev, |roads|, dist', prev')
    requires Shape(ids, start, Without(queue, u), visits + [u], dist', prev')
    ensures Relaxed(roads, Without(queue, u), visits + [u], dist')
  {
    var q' := Without(queue, u);
    forall x, y, e | x in q' && y in visits + [u] && 0 <= e < |roads| && Touches(roads[e], y, x)
      ensures dist'[x].AtMost(dist'[y].Plus(roads[e].weight))
    {
      assert x in queue && y !in q';
      assert y == u || y in visits;
      RelaxedPair(roads, u, q', dist, prev, dist', prev', x, y, e);
    }
  }

  lemma ShortestKept<K(!new)>(roads: seq<Road<K>>, ids: seq<K>, start: K, dist: map<K, Ext>,
                              dist': map<K, Ext>, x: K)
    requires x in dist && x in dist' && dist'[x] == dist[x] && Shortest(roads, ids, start, dist, x)
    ensures Shortest(roads, ids, start, dist', x)
  {
  }

  lemma SettleOptimal<K(!new)>(ids: seq<K>, roads: seq<Road<K>>, start: K, end: K, queue: seq<K>,
                               visits: seq<K>, dist: map<K, Ext>, prev: map<K, Option<K>>, u: K,
                               dist': map<K, Ext>, prev': map<K, Option<K>>)
    requires Step(ids, roads, start, end, queue, visits, dist, prev, u, dist', prev')
    requires Shape(ids, start, Without(queue, u), visits + [u], dist', prev')
    ensures Optimal(ids, roads, start, Without(queue, u), visits + [u], dist', prev')
  {
    if NonNegative(roads) {
      SelectShortest(ids, roads, start, queue, visits, dist, prev, u);
      forall x | x in visits + [u]
        ensures Shortest(roads, ids, start, dist', x)
      {
        ShortestKept(roads, ids, start, dist, dist', x);
      }
    }
  }

  /** A round keeps the loop invariant. */
  lemma Settle<K(!new)>(ids: seq<K>, roads: seq<Road<K>>, start: K, end: K, queue: seq<K>,
                        visits: seq<K>, dist: map<K, Ext>, prev: map<K, Option<K>>, u: K,
                        dist': map<K, Ext>, prev': map<K, Option<K>>)
    requires Step(ids, roads, start, end, queue, visits, dist, prev, u, dist', prev')
    ensures Progress(ids, roads, start, end, Without(queue, u), visits + [u], dist', prev')
  {
    SettleShape(ids, roads, start, end, queue, visits, dist, prev, u, dist', prev');
    StartFirst(ids, roads, start, end, queue, visits, dist, prev, u, dist', prev');
    SettleOrigin(ids, roads, start, queue, visits, dist, prev, u, dist', prev');
    SettleChains(ids, roads, start, end, queue, visits, dist, prev, u, dist', prev');
    SettleRelaxed(ids, roads, start, queue, visits, dist, prev, u, dist', prev');
    SettleOptimal(ids, roads, start, end, queue, visits, dist, prev, u, dist', prev');
  }

  // ------------------------------------------------------ start and finish

  lemma {:induction false} PendingNone<K(!new)>(ids: seq<K>)
    ensures Pending(ids, []) == ids
    decreases |ids|
  {
    if |ids| > 0 {
      PendingNone(ids[1..]);
      assert ids == [ids[0]] + ids[1..];
    }
  }

  /** The `nodes.forEach` initialisation, then `distances[start] = 0`: every
      node at Infinity with no predecessor and queued in list order; start
      gets distance 0 even when it is not a node. */
  method Init<K(==,!new)>(ids: seq<K>, start: K)
    returns (dist: map<K, Ext>, prev: map<K, Option<K>>, queue: seq<K>)
    requires NoDup(ids)
    ensures forall x :: x in dist <==> x in ids || x == start
    ensures forall x :: x in prev <==> x in ids
    ensures forall x :: x in dist ==> dist[x] == if x == start then Fin(0) else Inf
    ensures forall x :: x in prev ==> prev[x] == None
    ensures queue == ids
  {
    dist, prev, queue := map[], map[], [];
    for i := 0 to |ids|
      invariant forall x :: x in dist <==> x in ids[..i]
      invariant forall x :: x in prev <==> x in ids[..i]
      invariant forall x :: x in dist ==> dist[x] == Inf
      invariant forall x :: x in prev ==> prev[x] == None
      invariant queue == ids[..i]
    {
      assert ids[..i + 1] == ids[..i] + [ids[i]];
      dist := dist[ids[i] := Inf];
      prev := prev[ids[i] := None];
      queue := queue + [ids[i]];
    }
    assert ids[..|ids|] == ids;
    dist := dist[start := Fin(0)];
  }

  lemma Started<K(!new)>(ids: seq<K>, roads: seq<Road<K>>, start: K, end: K,
                         dist: map<K, Ext>, prev: map<K, Option<K>>)
    requires NoDup(ids)
    requires forall x :: x in dist <==> x in ids || x == start
    requires forall x :: x in prev <==> x in ids
    requires forall x :: x in dist ==> dist[x] == if x == start then Fin(0) else Inf
    requires forall x :: x in prev ==> prev[x] == None
    ensures Progress(ids, roads, start, end, ids, [], dist, prev)
  {
    PendingNone(ids);
  }

  /** The predecessors, read from end, come back to a node without one. */
  predicate Chain<K(==)>(prev: map<K, Option<K>>, path: seq<K>) {
    && |path| > 0 && (forall i :: 0 <= i < |path| ==> path[i] in prev) && prev[path[0]] == None
    && forall i :: 0 <= i < |path| - 1 ==> prev[path[i + 1]] == Some(path[i])
  }

  /** Every predecessor was settled, and before its successor when that was
      settled too. */
  ghost predicate Ranked<K(!new)>(prev: map<K, Option<K>>, visits: seq<K>) {
    forall x :: x in prev && prev[x].Some? ==>
      && prev[x].value in visits && prev[x].value in prev
      && (x in visits ==> Pos(visits, prev[x].value) < Pos(visits, x))
  }

  lemma ChainsRanked<K(!new)>(ids: seq<K>, roads: seq<Road<K>>, start: K, queue: seq<K>, visits: seq<K>,
                              dist: map<K, Ext>, prev: map<K, Option<K>>)
    requires Shape(ids, start, queue, visits, dist, prev) && Chains(ids, roads, start, queue, visits, dist, prev)
    ensures Ranked(prev, visits)
  {
    forall x | x in prev && prev[x].Some?
      ensures prev[x].value in visits && prev[x].value in prev
      ensures x in visits ==> Pos(visits, prev[x].value) < Pos(visits, x)
    {
      assert Linked(roads, visits, dist, prev, x);
    }
  }

  /** The `while (current !== null)` walk back from end through the
      predecessors, each prepended to the path. It ends because every
      predecessor was settled before its successor. */
  method Backtrack<K(==,!new)>(prev: map<K, Option<K>>, end: K, ghost visits: seq<K>) returns (path: seq<K>)
    requires end in prev && end !in visits && Ranked(prev, visits)
    ensures Chain(prev, path) && path[|path| - 1] == end
  {
    var current := Some(end);
    path := [];
    while current.Some?
      invariant current.Some? ==> current.value in prev && (current.value == end || current.value in visits)
      invariant path == [] ==> current == Some(end)
      invariant forall i :: 0 <= i < |path| ==> path[i] in prev
      invariant path != [] ==> path[|path| - 1] == end && prev[path[0]] == current
      invariant path != [] && current.Some? ==> current.value in visits
      invariant forall i :: 0 <= i < |path| - 1 ==> prev[path[i + 1]] == Some(path[i])
      decreases if current.None? then 0 else if current.value in visits then Pos(visits, current.value) + 1 else |visits| + 1
    {
      var c := current.value;
      path := [c] + path;
      current := prev[c];
    }
  }

  /** The path found and its cost: the path ends at end through graph nodes
      and follows edges; a finite cost is the weight of those edges from
      start; an infinite cost comes with the path [end] alone. */
  ghost predicate Found<K(!new)>(roads: seq<Road<K>>, ids: seq<K>, start: K, end: K, path: seq<K>, cost: Ext) {
    && |path| > 0 && path[|path| - 1] == end && Inside(path, ids)
    && (exists es :: Route(roads, path, es) && (cost.Fin? ==> path[0] == start && Cost(roads, es) == cost.n))
    && (cost.Inf? ==> path == [end])
  }

  lemma RouteCons<K(!new)>(roads: seq<Road<K>>, p: seq<K>, es: seq<int>, y: K, e: int)
    requires Route(roads, p, es) && 0 <= e < |roads| && Touches(roads[e], y, p[0])
    ensures Route(roads, [y] + p, [e] + es) && Cost(roads, [e] + es) == roads[e].weight + Cost(roads, es)
  {
    assert ([e] + es)[1..] == es;
  }

  /** One predecessor link extends the walk back by one edge. */
  lemma ChainStep<K(!new)>(roads: seq<Road<K>>, dist: map<K, Ext>, end: K, path: seq<K>, i: nat, es: seq<int>)
    returns (es': seq<int>)
    requires 0 < i < |path| && end in dist && path[i - 1] in dist && path[i] in dist
    requires Route(roads, path[i..], es) && Link(roads, dist, path[i - 1], path[i])
    requires dist[end].Fin? ==> dist[path[i]].Fin? && Cost(roads, es) == dist[end].n - dist[path[i]].n
    ensures Route(roads, path[i - 1..], es')
    ensures dist[end].Fin? ==> dist[path[i - 1]].Fin? && Cost(roads, es') == dist[end].n - dist[path[i - 1]].n
  {
    var y, x := path[i - 1], path[i];
    var e :| 0 <= e < |roads| && Touches(roads[e], y, x) && dist[x] == dist[y].Plus(roads[e].weight);
    RouteCons(roads, path[i..], es, y, e);
    assert path[i - 1..] == [y] + path[i..];
    es' := [e] + es;
  }

  /** The reconstructed chain is a walk whose edge weights add up to the
      distance of end, starting at start when that distance is finite. */
  lemma ChainRoute<K(!new)>(ids: seq<K>, roads: seq<Road<K>>, start: K, queue: seq<K>, visits: seq<K>,
                            dist: map<K, Ext>, prev: map<K, Option<K>>, end: K, path: seq<K>)
    requires Shape(ids, start, queue, visits, dist, prev) && Origin(ids, start, queue, visits, dist, prev)
    requires Chains(ids, roads, start, queue, visits, dist, prev)
    requires Chain(prev, path) && path[|path| - 1] == end
    ensures Found(roads, ids, start, end, path, dist[end])
  {
    var i := |path| - 1;
    var es: seq<int> := [];
    assert path[i..] == [end];
    while i > 0
      invariant 0 <= i < |path| && Route(roads, path[i..], es)
      invariant dist[end].Fin? ==> dist[path[i]].Fin? && Cost(roads, es) == dist[end].n - dist[path[i]].n
    {
      assert prev[path[i]] == Some(path[i - 1]);
      assert Linked(roads, visits, dist, prev, path[i]);
      es := ChainStep(roads, dist, end, path, i, es);
      i := i - 1;
    }
    assert path[0..] == path;
    if |path| > 1 {
      assert Linked(roads, visits, dist, prev, end);
      assert prev[path[|path| - 1]] == Some(path[|path| - 2]);
    }
  }

  /** When end is selected, the walk back can start from it. */
  lemma Reached<K(!new)>(ids: seq<K>, roads: seq<Road<K>>, start: K, end: K, queue: seq<K>,
                         visits: seq<K>, dist: map<K, Ext>, prev: map<K, Option<K>>)
    requires Progress(ids, roads, start, end, queue, visits, dist, prev) && end in queue
    ensures end in prev && end !in visits && Ranked(prev, visits)
  {
    ChainsRanked(ids, roads, start, queue, visits, dist, prev);
  }

  /** The result returned when end is selected. */
  lemma Finished<K(!new)>(ids: seq<K>, roads: seq<Road<K>>, start: K, end: K, queue: seq<K>,
                          visits: seq<K>, dist: map<K, Ext>, prev: map<K, Option<K>>, path: seq<K>)
    requires Progress(ids, roads, start, end, queue, visits, dist, prev) && end in queue
    requires forall i :: 0 <= i < |queue| ==> dist[end].AtMost(dist[queue[i]])
    requires Chain(prev, path) && path[|path| - 1] == end
    ensures Found(roads, ids, start, end, path, dist[end])
    ensures NonNegative(roads) ==> Least(roads, ids, start, end, dist[end])
    ensures NoDup(visits + [end]) && (forall x :: x in visits + [end] ==> x in ids) && |visits + [end]| <= |ids|
  {
    ChainRoute(ids, roads, start, queue, visits, dist, prev, end, path);
    if NonNegative(roads) {
      SelectShortest(ids, roads, start, queue, visits, dist, prev, end);
    }
  }

  /** An emptied queue means end was never a node. */
  lemma Exhausted<K(!new)>(ids: seq<K>, roads: seq<Road<K>>, start: K, end: K, queue: seq<K>,
                           visits: seq<K>, dist: map<K, Ext>, prev: map<K, Option<K>>)
    requires Progress(ids, roads, start, end, queue, visits, dist, prev) && |queue| == 0
    ensures end !in ids && NoDup(visits) && (forall x :: x in visits ==> x in ids) && |visits| <= |ids|
  {
  }

  /** dijkstra(start, end): settle the queued node of least distance (the
      first such in list order); stop when it is end, with the path read
      back through the predecessors and the distance of end; otherwise
      delete it from the queue and relax its edges. `visits` lists the
      settled nodes in the order the log reports them. */
  method ShortestPath<K(==,!new)>(ids: seq<K>, roads: seq<Road<K>>, start: K, end: K)
    returns (path: Option<seq<K>>, cost: Ext, visits: seq<K>)
    requires NoDup(ids)
    ensures path.None? <==> end !in ids
    ensures path.None? ==> cost == Inf
    ensures NoDup(visits) && (forall x :: x in visits ==> x in ids) && |visits| <= |ids|
    ensures path.Some? ==> |visits| > 0 && visits[|visits| - 1] == end
    ensures path.Some? ==> Found(roads, ids, start, end, path.value, cost)
    ensures path.Some? && NonNegative(roads) ==> Least(roads, ids, start, end, cost)
  {
    var dist, prev, queue := Init(ids, start);
    visits := [];
    Started(ids, roads, start, end, dist, prev);
    while |queue| > 0
      invariant Progress(ids, roads, start, end, queue, visits, dist, prev)
      decreases |queue|
    {
      var u := queue[MinIndex(queue, dist)];
      MinIndexFirstMin(queue, dist);
      if u == end {
        Reached(ids, roads, start, end, queue, visits, dist, prev);
        var p := Backtrack(prev, end, visits);
        Finished(ids, roads, start, end, queue, visits, dist, prev, p);
        visits := visits + [u];
        path, cost := Some(p), dist[end];
        return;
      }
      var queue' := Without(queue, u);
      var dist', prev' := Relax(roads, u, queue', dist, prev);
      Settle(ids, roads, start, end, queue, visits, dist, prev, u, dist', prev');
      queue, visits, dist, prev := queue', visits + [u], dist', prev';
    }
    Exhausted(ids, roads, start, end, queue, visits, dist, prev);
    path, cost := None, Inf;
  }

  /** startShortestPath: dijkstra between two typed ids over the page's node
      list and edge list. */
  method StartShortestPath(nodes: seq<Node>, edges: seq<Edge>, source: NodeId, sink: NodeId)
    returns (path: Option<seq<NodeId>>, cost: Ext)
    requires NoDup(Ids(nodes))
    ensures path.None? <==> forall k :: 0 <= k < |nodes| ==> nodes[k].id != sink
    ensures path.None? ==> cost == Inf
    ensures path.Some? ==> Found(Roads(edges), Ids(nodes), source, sink, path.value, cost)
    ensures path.Some? && (forall k :: 0 <= k < |edges| ==> edges[k].weight > 0) ==>
      Least(Roads(edges), Ids(nodes), source, sink, cost)
  {
    var ids, roads := Ids(nodes), Roads(edges);
    assert (forall k :: 0 <= k < |edges| ==> edges[k].weight > 0) ==> NonNegative(roads);
    assert sink in ids <==> exists k :: 0 <= k < |nodes| && nodes[k].id == sink;
    var visits;
    path, cost, visits := ShortestPath(ids, roads, source, sink);
  }

  // ------------------------------------------------------------- an example

  /** With weights of at least 1, a walk costs at least its number of edges. */
  lemma {:induction false} CostAtLeast<K>(roads: seq<Road<K>>, es: seq<int>)
    requires forall i :: 0 <= i < |es| ==> 0 <= es[i] < |roads|
    requires forall e :: 0 <= e < |roads| ==> roads[e].weight >= 1
    ensures Cost(roads, es) >= |es|
    decreases |es|
  {
    if |es| > 0 {
      CostAtLeast(roads, es[1..]);
    }
  }

  /** The triangle A-B(1), B-C(1), A-C(5): any answer dijkstra may give from A
      to C, being a route of least cost, is [A, B, C] at cost 2. */
  lemma TriangleShortest<K(!new)>(a: K, b: K, c: K, path: seq<K>, cost: Ext)
    requires a != b && b != c && a != c
    requires Found([Road(a, b, 1), Road(b, c, 1), Road(a, c, 5)], [a, b, c], a, c, path, cost)
    requires Least([Road(a, b, 1), Road(b, c, 1), Road(a, c, 5)], [a, b, c], a, c, cost)
    ensures cost == Fin(2) && path == [a, b, c]
  {
    var roads, ids := [Road(a, b, 1), Road(b, c, 1), Road(a, c, 5)], [a, b, c];
    assert Route(roads, [a, b, c], [0, 1]) && Inside([a, b, c], ids);
    assert Cost(roads, [0, 1]) == 2 by {
      assert [0, 1][1..] == [1] && [1][1..] == [];
    }
    assert cost.Fin? && cost.n <= 2;
    var es :| Route(roads, path, es) && path[0] == a && Cost(roads, es) == cost.n;
    CostAtLeast(roads, es);
    assert Cost(roads, es) == roads[es[0]].weight + Cost(roads, es[1..]);
    assert |es| == 2;
    assert Cost(roads, es[1..]) == roads[es[1]].weight + Cost(roads, es[2..]);
    assert Touches(roads[es[0]], a, path[1]) && Touches(roads[es[1]], path[1], c);
    assert es[0] == 0 && path[1] == b;
  }
}
