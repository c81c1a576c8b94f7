/** The two traversals of the traversal page (tasks/task1/script.js): startDFS,
    a recursive pre-order depth-first search, and startBFS, a breadth-first
    search that marks a node visited when it is enqueued. Both start at the
    first node of the node list and follow edges in either direction. The
    visited Set is kept in insertion order, which is also the order of the
    "visited" lines each traversal writes to the log. */
module Traversal {
  import opened Graph

  // ------------------------------------------------------------- neighbours

  /** `edges.get().filter(edge => edge.from === u || edge.to === u)`. */
  function Incident<K(==,!new)>(links: seq<(K, K)>, u: K): (inc: seq<(K, K)>)
    ensures forall l :: l in inc <==> l in links && (l.0 == u || l.1 == u)
  {
    if |links| == 0 then []
    else (if links[0].0 == u || links[0].1 == u then [links[0]] else []) + Incident(links[1..], u)
  }

  /** `edge.from === u ? edge.to : edge.from`. */
  function Other<K(==,!new)>(l: (K, K), u: K): K {
    if l.0 == u then l.1 else l.0
  }

  /** Every node the neighbour loop reaches is adjacent to u. */
  lemma OtherAdjacent<K(!new)>(links: seq<(K, K)>, u: K, l: (K, K))
    requires l in Incident(links, u)
    ensures Adjacent(links, u, Other(l, u))
  {
    var k :| 0 <= k < |links| && links[k] == l;
    assert Joins(links[k], u, Other(l, u));
  }

  /** Every node adjacent to u is reached by the neighbour loop. */
  lemma AdjacentOther<K(!new)>(links: seq<(K, K)>, u: K, v: K)
    requires Adjacent(links, u, v)
    ensures exists l :: l in Incident(links, u) && Other(l, u) == v
  {
    var k :| 0 <= k < |links| && Joins(links[k], u, v);
    assert links[k] in Incident(links, u) && Other(links[k], u) == v;
  }

  /** The endpoints of the links. */
  ghost function Ends<K(!new)>(links: seq<(K, K)>): set<K> {
    (set l | l in links :: l.0) + (set l | l in links :: l.1)
  }

  lemma OtherEnd<K(!new)>(links: seq<(K, K)>, u: K, l: (K, K))
    requires l in Incident(links, u)
    ensures Other(l, u) in Ends(links)
  {
  }

  // ------------------------------------------------------------- invariants

  /** Every node after the first was found as a neighbour of an earlier one. */
  ghost predicate Grown<K(!new)>(links: seq<(K, K)>, vis: seq<K>) {
    forall k :: 0 < k < |vis| ==> Found(links, vis, k)
  }

  /** The node at position k is a neighbour of an earlier one. */
  ghost predicate Found<K(!new)>(links: seq<(K, K)>, vis: seq<K>, k: int)
    requires 0 <= k < |vis|
  {
    exists j :: 0 <= j < k && Adjacent(links, vis[j], vis[k])
  }

  /** Every visited node outside `open` has all its neighbours visited. */
  ghost predicate Done<K(!new)>(links: seq<(K, K)>, visited: set<K>, open: set<K>) {
    forall x, y :: x in visited && x !in open && Adjacent(links, x, y) ==> y in visited
  }

  /** The log lists the visited Set once each, every node after the first
      next to an earlier one. */
  ghost predicate Logged<K(!new)>(links: seq<(K, K)>, visited: set<K>, log: seq<K>, universe: set<K>) {
    && visited <= universe && NoDup(log) && Grown(links, log)
    && forall x {:trigger Lists(log, x)} :: x in visited <==> Lists(log, x)
  }

  /** Logging an unvisited node z found next to the one at position h (or the
      first node, on an empty log). */
  lemma LogNew<K(!new)>(links: seq<(K, K)>, universe: set<K>, visited: set<K>, log: seq<K>, h: nat, z: K)
    requires Logged(links, visited, log, universe) && (log == [] || (h < |log| && Adjacent(links, log[h], z)))
    requires z in universe && z !in visited
    ensures Logged(links, visited + {z}, log + [z], universe)
  {
    var log' := log + [z];
    GrownSnoc(links, log, h, z);
    forall i, j | 0 <= i < j < |log'|
      ensures log'[i] != log'[j]
    {
      if j < |log| {
        assert log'[i] == log[i] && log'[j] == log[j];
      } else {
        assert log'[i] == log[i] && Lists(log, log[i]);
      }
    }
    forall x
      ensures x in visited + {z} <==> Lists(log', x)
    {
      assert Lists(log', x) <==> Lists(log, x) || x == z;
    }
  }

  lemma {:induction false} GrownReachable<K(!new)>(links: seq<(K, K)>, vis: seq<K>, k: nat)
    requires Grown(links, vis) && k < |vis|
    ensures Reachable(links, vis[0], vis[k])
    decreases k
  {
    if k == 0 {
      ReachableRefl(links, vis[0]);
    } else {
      assert Found(links, vis, k);
      var j :| 0 <= j < k && Adjacent(links, vis[j], vis[k]);
      GrownReachable(links, vis, j);
      ReachableStep(links, vis[0], vis[j], vis[k]);
    }
  }

  /** A finished traversal holds exactly the nodes reachable from its first. */
  lemma Component<K(!new)>(links: seq<(K, K)>, visited: set<K>, log: seq<K>, universe: set<K>, x: K)
    requires |log| > 0 && Logged(links, visited, log, universe) && Done(links, visited, {})
    ensures x in log <==> Reachable(links, log[0], x)
  {
    assert (Lists(log, x) <==> x in visited) && Lists(log, log[0]);
    if x in log {
      var k :| 0 <= k < |log| && log[k] == x;
      GrownReachable(links, log, k);
    }
    if Reachable(links, log[0], x) {
      ClosedContainsReachable(links, visited, log[0], x);
    }
  }

  /** Appending a node found next to the one at index p keeps the list grown. */
  lemma GrownSnoc<K(!new)>(links: seq<(K, K)>, vis: seq<K>, p: nat, u: K)
    requires Grown(links, vis) && (vis == [] || (p < |vis| && Adjacent(links, vis[p], u)))
    ensures Grown(links, vis + [u])
  {
    var w := vis + [u];
    forall k | 0 < k < |w|
      ensures Found(links, w, k)
    {
      if k < |vis| {
        assert Found(links, vis, k);
        var j :| 0 <= j < k && Adjacent(links, vis[j], vis[k]);
        assert w[j] == vis[j] && w[k] == vis[k];
        assert Adjacent(links, w[j], w[k]);
      } else {
        assert w[p] == vis[p] && w[k] == u;
        assert Adjacent(links, w[p], w[k]);
      }
    }
  }

  // -------------------------------------------------------------------- DFS

  /** The state startDFS shares with its inner recursive `dfs`: the visited
      Set and the log. */
  class DepthFirst<K(==,!new)> {
    var visited: set<K>

    /** The nodes written to the log, in order. */
    var log: seq<K>

    constructor ()
      ensures visited == {} && log == []
    {
      visited := {};
      log := [];
    }

    /** `dfs(u)`: nothing if u is visited; otherwise u is added and logged,
        then every unvisited neighbour is searched in edge order. `p` is the
        log position of the node whose loop called this one; `open` holds the
        nodes whose loops are still running. */
    method Visit(links: seq<(K, K)>, u: K, ghost universe: set<K>, ghost p: nat, ghost open: set<K>)
      requires Ends(links) <= universe && u in universe && Logged(links, visited, log, universe)
      requires log == [] || (p < |log| && Adjacent(links, log[p], u))
      requires open <= visited && Done(links, visited, open)
      modifies this
      ensures old(log) <= log && old(visited) <= visited && u in visited
      ensures u !in old(visited) ==> |log| > |old(log)| && log[|old(log)|] == u
      ensures Logged(links, visited, log, universe) && Done(links, visited, open)
      decreases universe - visited
    {
      if u in visited {
        return;
      }
      LogNew(links, universe, visited, log, p, u);
      visited := visited + {u};
      log := log + [u];
      ghost var me := |old(log)|;
      var inc := Incident(links, u);
      for i := 0 to |inc|
        invariant old(log) + [u] <= log && old(visited) + {u} <= visited
        invariant Logged(links, visited, log, universe) && Done(links, visited, open + {u})
        invariant forall k :: 0 <= k < i ==> Other(inc[k], u) in visited
      {
        var next := Other(inc[i], u);
        if next !in visited {
          OtherAdjacent(links, u, inc[i]);
          OtherEnd(links, u, inc[i]);
          assert log[me] == u;
          Visit(links, next, universe, me, open + {u});
        }
      }
      forall y | Adjacent(links, u, y)
        ensures y in visited
      {
        AdjacentOther(links, u, y);
      }
    }
  }

  /** startDFS: the visit order (the log) of a depth-first search from the
      first node; nothing when there are no nodes. */
  method StartDfs(nodes: seq<Node>, arcs: seq<Arc>) returns (order: seq<NodeId>)
    ensures |nodes| == 0 ==> order == []
    ensures |nodes| > 0 ==> |order| > 0 && order[0] == nodes[0].id
    ensures NoDup(order)
    ensures |nodes| > 0 ==> forall x :: x in order <==> Reachable(ArcLinks(arcs), nodes[0].id, x)
  {
    var links := ArcLinks(arcs);
    var search := new DepthFirst<NodeId>();
    if |nodes| > 0 {
      var start := nodes[0].id;
      search.Visit(links, start, Ends(links) + {start}, 0, {});
      forall x
        ensures x in search.log <==> Reachable(links, start, x)
      {
        Component(links, search.visited, search.log, Ends(links) + {start}, x);
      }
    }
    order := search.log;
  }

  // -------------------------------------------------------------------- BFS

  /** Some walk of at most n steps leads from x to y. */
  ghost predicate Within<K(!new)>(links: seq<(K, K)>, x: K, y: K, n: int) {
    exists p :: Walk(links, p) && p[0] == x && p[|p| - 1] == y && |p| <= n + 1
  }

  lemma WithinStep<K(!new)>(links: seq<(K, K)>, x: K, y: K, z: K, n: int)
    requires Within(links, x, y, n) && Adjacent(links, y, z)
    ensures Within(links, x, z, n + 1)
  {
    var p :| Walk(links, p) && p[0] == x && p[|p| - 1] == y && |p| <= n + 1;
    var q := p + [z];
    assert forall i :: 0 <= i < |q| - 1 ==> q[i] == p[i] || i == |p| - 1;
    assert Walk(links, q);
  }

  /** The BFS levels: the node at position k (after the first) is one level
      above an earlier neighbour. */
  ghost predicate Parent<K(!new)>(links: seq<(K, K)>, log: seq<K>, level: map<K, nat>, k: int)
    requires 0 <= k < |log| && forall m :: 0 <= m < |log| ==> log[m] in level
  {
    exists j :: 0 <= j < k && Adjacent(links, log[j], log[k]) && level[log[k]] == level[log[j]] + 1
  }

  /** What breadth-first order keeps about the levels of the logged nodes:
      the first is at level 0, levels never fall along the log, and every
      later node sits one level above an earlier neighbour. */
  ghost predicate Layered<K(!new)>(links: seq<(K, K)>, visited: set<K>, log: seq<K>, level: map<K, nat>) {
    && level.Keys == visited
    && (forall m :: 0 <= m < |log| ==> log[m] in level)
    && (|log| > 0 ==> level[log[0]] == 0)
    && Rising(log, level) && Parents(links, log, level)
  }

  /** Levels never fall along the log. */
  ghost predicate Rising<K(!new)>(log: seq<K>, level: map<K, nat>)
    requires forall m :: 0 <= m < |log| ==> log[m] in level
  {
    forall i, j :: 0 <= i < j < |log| ==> level[log[i]] <= level[log[j]]
  }

  ghost predicate Parents<K(!new)>(links: seq<(K, K)>, log: seq<K>, level: map<K, nat>)
    requires forall m :: 0 <= m < |log| ==> log[m] in level
  {
    forall k :: 0 < k < |log| ==> Parent(links, log, level, k)
  }

  /** The nodes at log positions below `upto` have every neighbour visited,
      at most one level further. */
  ghost predicate Processed<K(!new)>(links: seq<(K, K)>, log: seq<K>, level: map<K, nat>, upto: int)
    requires upto <= |log| && forall m :: 0 <= m < |log| ==> log[m] in level
  {
    forall k, y :: 0 <= k < upto && Adjacent(links, log[k], y) ==> y in level && level[y] <= level[log[k]] + 1
  }

  /** startBFS between rounds: the queue is the log from position `head`,
      and the front of the queue and its back are at most one level apart. */
  ghost predicate Queued<K(!new)>(links: seq<(K, K)>, universe: set<K>, visited: set<K>, log: seq<K>,
                                  level: map<K, nat>, head: nat)
  {
    && Logged(links, visited, log, universe) && Layered(links, visited, log, level)
    && head <= |log| && Processed(links, log, level, head)
    && (head < |log| ==> level[log[|log| - 1]] <= level[log[head]] + 1)
  }

  /** startBFS while scanning the neighbours of u, logged at position h. */
  ghost predicate Scanning<K(!new)>(links: seq<(K, K)>, universe: set<K>, visited: set<K>, log: seq<K>,
                                    level: map<K, nat>, h: nat, u: K)
  {
    && Logged(links, visited, log, universe) && Layered(links, visited, log, level)
    && h < |log| && log[h] == u && Processed(links, log, level, h)
    && level[log[|log| - 1]] <= level[u] + 1
  }

  lemma QueuedStart<K(!new)>(links: seq<(K, K)>, universe: set<K>, start: K)
    requires start in universe
    ensures Queued(links, universe, {start}, [start], map[start := 0], 0)
  {
    assert Grown(links, [start]);
  }

  lemma QueuedEmpty<K(!new)>(links: seq<(K, K)>, universe: set<K>)
    ensures Queued(links, universe, {}, [], map[], 0)
  {
  }

  /** Taking the front of the queue. */
  lemma Shift<K(!new)>(links: seq<(K, K)>, universe: set<K>, visited: set<K>, log: seq<K>,
                       level: map<K, nat>, head: nat)
    requires Queued(links, universe, visited, log, level, head) && head < |log|
    ensures Scanning(links, universe, visited, log, level, head, log[head])
  {
  }

  /** An already visited neighbour of u is at most one level above it. */
  lemma SeenWithin<K(!new)>(links: seq<(K, K)>, universe: set<K>, visited: set<K>, log: seq<K>,
                            level: map<K, nat>, h: nat, u: K, y: K)
    requires Scanning(links, universe, visited, log, level, h, u) && y in visited
    ensures level[y] <= level[u] + 1
  {
    assert Lists(log, y);
    var m :| 0 <= m < |log| && log[m] == y;
    if m < |log| - 1 {
      assert level[log[m]] <= level[log[|log| - 1]];
    }
  }

  lemma RisingNew<K(!new)>(log: seq<K>, level: map<K, nat>, z: K, lz: nat)
    requires (forall m :: 0 <= m < |log| ==> log[m] in level) && z !in level
    requires Rising(log, level) && (|log| > 0 ==> level[log[|log| - 1]] <= lz)
    ensures forall m :: 0 <= m < |log| + 1 ==> (log + [z])[m] in level[z := lz]
    ensures Rising(log + [z], level[z := lz])
  {
    var log', level' := log + [z], level[z := lz];
    forall m | 0 <= m < |log'|
      ensures log'[m] in level'
    {
      if m < |log| {
        assert log'[m] == log[m];
      }
    }
    forall i, j | 0 <= i < j < |log'|
      ensures level'[log'[i]] <= level'[log'[j]]
    {
      assert log'[i] == log[i] && level'[log[i]] == level[log[i]];
      if j < |log| {
        assert log'[j] == log[j] && level'[log[j]] == level[log[j]];
      } else if i < |log| - 1 {
        assert level[log[i]] <= level[log[|log| - 1]];
      }
    }
  }

  lemma ParentsNew<K(!new)>(links: seq<(K, K)>, log: seq<K>, level: map<K, nat>, h: nat, z: K)
    requires (forall m :: 0 <= m < |log| ==> log[m] in level) && z !in level
    requires Parents(links, log, level) && h < |log| && Adjacent(links, log[h], z)
    ensures forall m :: 0 <= m < |log| + 1 ==> (log + [z])[m] in level[z := level[log[h]] + 1]
    ensures Parents(links, log + [z], level[z := level[log[h]] + 1])
  {
    var log', level' := log + [z], level[z := level[log[h]] + 1];
    forall m | 0 <= m < |log'|
      ensures log'[m] in level'
    {
      if m < |log| {
        assert log'[m] == log[m];
      }
    }
    forall k | 0 < k < |log'|
      ensures Parent(links, log', level', k)
    {
      if k < |log| {
        assert Parent(links, log, level, k);
        var j :| 0 <= j < k && Adjacent(links, log[j], log[k]) && level[log[k]] == level[log[j]] + 1;
        assert log'[j] == log[j] && log'[k] == log[k];
        assert Adjacent(links, log'[j], log'[k]) && level'[log'[k]] == level'[log'[j]] + 1;
      } else {
        assert log'[h] == log[h];
        assert Adjacent(links, log'[h], log'[k]) && level'[log'[k]] == level'[log'[h]] + 1;
      }
    }
  }

  /** Giving z the level one above u keeps the levels layered. */
  lemma LayerNew<K(!new)>(links: seq<(K, K)>, visited: set<K>, log: seq<K>, level: map<K, nat>, h: nat, z: K)
    requires Layered(links, visited, log, level) && h < |log| && Adjacent(links, log[h], z) && z !in visited
    requires level[log[|log| - 1]] <= level[log[h]] + 1
    ensures Layered(links, visited + {z}, log + [z], level[z := level[log[h]] + 1])
  {
    RisingNew(log, level, z, level[log[h]] + 1);
    ParentsNew(links, log, level, h, z);
  }

  /** The nodes processed so far keep their guarantee when z is added. */
  lemma ProcessedNew<K(!new)>(links: seq<(K, K)>, log: seq<K>, level: map<K, nat>, h: nat, z: K, lz: nat)
    requires h < |log| && (forall m :: 0 <= m < |log| ==> log[m] in level) && z !in level
    requires Processed(links, log, level, h)
    ensures forall m :: 0 <= m < |log| + 1 ==> (log + [z])[m] in level[z := lz]
    ensures Processed(links, log + [z], level[z := lz], h)
  {
    var log', level' := log + [z], level[z := lz];
    forall m | 0 <= m < |log'|
      ensures log'[m] in level'
    {
      if m < |log| {
        assert log'[m] == log[m];
      }
    }
    forall k, y | 0 <= k < h && Adjacent(links, log'[k], y)
      ensures y in level' && level'[y] <= level'[log'[k]] + 1
    {
      assert log'[k] == log[k];
    }
  }

  /** Enqueuing an unvisited neighbour z of u one level above it. */
  lemma Enqueue<K(!new)>(links: seq<(K, K)>, universe: set<K>, visited: set<K>, log: seq<K>,
                         level: map<K, nat>, h: nat, u: K, z: K)
    requires Scanning(links, universe, visited, log, level, h, u)
    requires z in universe && z !in visited && Adjacent(links, u, z)
    ensures Scanning(links, universe, visited + {z}, log + [z], level[z := level[u] + 1], h, u)
  {
    LogNew(links, universe, visited, log, h, z);
    LayerNew(links, visited, log, level, h, z);
    ProcessedNew(links, log, level, h, z, level[u] + 1);
  }

  /** Once every neighbour of u is visited within one level, u is processed. */
  lemma Scanned<K(!new)>(links: seq<(K, K)>, universe: set<K>, visited: set<K>, log: seq<K>,
                         level: map<K, nat>, h: nat, u: K)
    requires Scanning(links, universe, visited, log, level, h, u)
    requires forall y :: Adjacent(links, u, y) ==> y in visited && level[y] <= level[u] + 1
    ensures Queued(links, universe, visited, log, level, h + 1)
  {
    if h + 1 < |log| {
      assert level[log[h]] <= level[log[h + 1]];
    }
  }

  /** A walk from the first node never ends below its length in levels. */
  lemma {:induction false} LevelBelowWalk<K(!new)>(links: seq<(K, K)>, universe: set<K>, visited: set<K>,
                                                   log: seq<K>, level: map<K, nat>, y: K, n: int)
    requires Queued(links, universe, visited, log, level, |log|) && |log| > 0
    requires Within(links, log[0], y, n)
    ensures y in visited && level[y] <= n
  {
    var p :| Walk(links, p) && p[0] == log[0] && p[|p| - 1] == y && |p| <= n + 1;
    var i := 0;
    while i < |p| - 1
      invariant 0 <= i < |p| && p[i] in visited && level[p[i]] <= i
    {
      assert Lists(log, p[i]);
      var k :| 0 <= k < |log| && log[k] == p[i];
      assert Adjacent(links, log[k], p[i + 1]);
      i := i + 1;
    }
  }

  /** The node at position k is reachable in as many steps as its level. */
  lemma {:induction false} WalkOfLevel<K(!new)>(links: seq<(K, K)>, visited: set<K>, log: seq<K>,
                                                level: map<K, nat>, k: nat)
    requires Layered(links, visited, log, level) && k < |log|
    ensures Within(links, log[0], log[k], level[log[k]])
    decreases k
  {
    if k == 0 {
      assert Walk(links, [log[0]]);
    } else {
      assert Parent(links, log, level, k);
      var j :| 0 <= j < k && Adjacent(links, log[j], log[k]) && level[log[k]] == level[log[j]] + 1;
      WalkOfLevel(links, visited, log, level, j);
      WithinStep(links, log[0], log[j], log[k], level[log[j]]);
    }
  }

  /** A node logged earlier is no more steps away than one logged later. */
  lemma HopOrder<K(!new)>(links: seq<(K, K)>, universe: set<K>, visited: set<K>, log: seq<K>,
                          level: map<K, nat>, i: nat, j: nat, n: int)
    requires Queued(links, universe, visited, log, level, |log|)
    requires i < j < |log| && Within(links, log[0], log[j], n)
    ensures Within(links, log[0], log[i], n)
  {
    LevelBelowWalk(links, universe, visited, log, level, log[j], n);
    WalkOfLevel(links, visited, log, level, i);
    assert level[log[i]] <= level[log[j]];
  }

  /** A finished breadth-first search leaves every visited node processed. */
  lemma QueuedDone<K(!new)>(links: seq<(K, K)>, universe: set<K>, visited: set<K>, log: seq<K>,
                            level: map<K, nat>)
    requires Queued(links, universe, visited, log, level, |log|)
    ensures Done(links, visited, {})
  {
    forall x, y | x in visited && Adjacent(links, x, y)
      ensures y in visited
    {
      assert Lists(log, x);
      var k :| 0 <= k < |log| && log[k] == x;
    }
  }

  /** The neighbour loop of one round after its first i edges: the round
      began from visited0, queue0 and log0. */
  ghost predicate ScanInv<K(!new)>(links: seq<(K, K)>, universe: set<K>, h: nat, u: K, inc: seq<(K, K)>, i: int,
                                   visited0: set<K>, queue0: seq<K>, log0: seq<K>,
                                   visited: set<K>, queue: seq<K>, log: seq<K>, level: map<K, nat>)
  {
    && Ends(links) <= universe && inc == Incident(links, u)
    && Scanning(links, universe, visited, log, level, h, u)
    && queue == log[h + 1..] && log0 <= log
    && visited0 <= visited && (visited == visited0 ==> queue == queue0)
    && 0 <= i <= |inc| && forall k :: 0 <= k < i ==> Other(inc[k], u) in visited
  }

  /** An unvisited neighbour is marked visited, enqueued and logged. */
  lemma ScanAdd<K(!new)>(links: seq<(K, K)>, universe: set<K>, h: nat, u: K, inc: seq<(K, K)>, i: int,
                         visited0: set<K>, queue0: seq<K>, log0: seq<K>,
                         visited: set<K>, queue: seq<K>, log: seq<K>, level: map<K, nat>, next: K)
    requires ScanInv(links, universe, h, u, inc, i, visited0, queue0, log0, visited, queue, log, level)
    requires i < |inc| && next == Other(inc[i], u) && next !in visited
    ensures ScanInv(links, universe, h, u, inc, i + 1, visited0, queue0, log0,
                    visited + {next}, queue + [next], log + [next], level[next := level[u] + 1])
  {
    OtherAdjacent(links, u, inc[i]);
    OtherEnd(links, u, inc[i]);
    Enqueue(links, universe, visited, log, level, h, u, next);
    assert (log + [next])[h + 1..] == log[h + 1..] + [next];
  }

  /** A visited neighbour is passed over. */
  lemma ScanSkip<K(!new)>(links: seq<(K, K)>, universe: set<K>, h: nat, u: K, inc: seq<(K, K)>, i: int,
                          visited0: set<K>, queue0: seq<K>, log0: seq<K>,
                          visited: set<K>, queue: seq<K>, log: seq<K>, level: map<K, nat>, next: K)
    requires ScanInv(links, universe, h, u, inc, i, visited0, queue0, log0, visited, queue, log, level)
    requires i < |inc| && next == Other(inc[i], u) && next in visited
    ensures ScanInv(links, universe, h, u, inc, i + 1, visited0, queue0, log0, visited, queue, log, level)
  {
  }

  /** After the whole loop, u is processed. */
  lemma ScanEnd<K(!new)>(links: seq<(K, K)>, universe: set<K>, h: nat, u: K, inc: seq<(K, K)>,
                         visited0: set<K>, queue0: seq<K>, log0: seq<K>,
                         visited: set<K>, queue: seq<K>, log: seq<K>, level: map<K, nat>)
    requires ScanInv(links, universe, h, u, inc, |inc|, visited0, queue0, log0, visited, queue, log, level)
    ensures Queued(links, universe, visited, log, level, h + 1)
  {
    forall y | Adjacent(links, u, y)
      ensures y in visited && level[y] <= level[u] + 1
    {
      AdjacentOther(links, u, y);
      SeenWithin(links, universe, visited, log, level, h, u, y);
    }
    Scanned(links, universe, visited, log, level, h, u);
  }

  /** The neighbour loop of one startBFS round: every unvisited neighbour of
      u, in edge order, is marked visited, enqueued and logged, one level
      above u. */
  method Scan<K(==,!new)>(links: seq<(K, K)>, u: K, visited: set<K>, queue: seq<K>, log: seq<K>,
                          ghost universe: set<K>, ghost level: map<K, nat>, ghost h: nat)
    returns (visited': set<K>, queue': seq<K>, log': seq<K>, ghost level': map<K, nat>)
    requires Ends(links) <= universe && Scanning(links, universe, visited, log, level, h, u)
    requires queue == log[h + 1..]
    ensures Queued(links, universe, visited', log', level', h + 1)
    ensures queue' == log'[h + 1..] && log <= log'
    ensures visited <= visited' && (visited' == visited ==> queue' == queue)
  {
    visited', queue', log', level' := visited, queue, log, level;
    var inc := Incident(links, u);
    for i := 0 to |inc|
      invariant ScanInv(links, universe, h, u, inc, i, visited, queue, log, visited', queue', log', level')
    {
      var next := Other(inc[i], u);
      if next !in visited' {
        ScanAdd(links, universe, h, u, inc, i, visited, queue, log, visited', queue', log', level', next);
        visited' := visited' + {next};
        queue' := queue' + [next];
        log' := log' + [next];
        level' := level'[next := level'[u] + 1];
      } else {
        ScanSkip(links, universe, h, u, inc, i, visited, queue, log, visited', queue', log', level', next);
      }
    }
    ScanEnd(links, universe, h, u, inc, visited, queue, log, visited', queue', log', level');
  }

  /** startBFS from `start` (the first node, when there is one): the log of a
      breadth-first search that marks a node visited when it enqueues it. */
  method BreadthFirst<K(==,!new)>(links: seq<(K, K)>, start: Option<K>) returns (log: seq<K>)
    ensures start == None ==> log == []
    ensures start.Some? ==> |log| > 0 && log[0] == start.value
    ensures NoDup(log)
    ensures start.Some? ==> forall x :: x in log <==> Reachable(links, start.value, x)
    ensures forall i, j, n :: 0 <= i < j < |log| && Within(links, log[0], log[j], n) ==>
              Within(links, log[0], log[i], n)
  {
    var visited: set<K> := {};
    var queue: seq<K> := [];
    log := [];
    ghost var universe := Ends(links);
    ghost var level: map<K, nat> := map[];
    ghost var head := 0;
    if start.Some? {
      universe := universe + {start.value};
      queue := queue + [start.value];
      visited := visited + {start.value};
      log := log + [start.value];
      level := map[start.value := 0];
      QueuedStart(links, universe, start.value);
    } else {
      QueuedEmpty(links, universe);
    }
    while |queue| > 0
      invariant Ends(links) <= universe && Queued(links, universe, visited, log, level, head)
      invariant queue == log[head..]
      invariant start == None ==> log == []
      invariant start.Some? ==> |log| > 0 && log[0] == start.value
      decreases universe - visited, |queue|
    {
      ghost var visited0, queue0 := visited, |queue|;
      var u := queue[0];
      queue := queue[1..];
      assert queue == log[head + 1..];
      Shift(links, universe, visited, log, level, head);
      visited, queue, log, level := Scan(links, u, visited, queue, log, universe, level, head);
      head := head + 1;
      if visited != visited0 {
        var x :| x in visited && x !in visited0;
        assert x in universe - visited0 && x !in universe - visited;
      } else {
        assert |queue| < queue0;
      }
    }
    QueuedDone(links, universe, visited, log, level);
    if start.Some? {
      forall x
        ensures x in log <==> Reachable(links, start.value, x)
      {
        Component(links, visited, log, universe, x);
      }
    }
    forall i, j, n | 0 <= i < j < |log| && Within(links, log[0], log[j], n)
      ensures Within(links, log[0], log[i], n)
    {
      HopOrder(links, universe, visited, log, level, i, j, n);
    }
  }

  /** The node startDFS and startBFS begin at: `nodes.get()[0]`, if any. */
  function First(nodes: seq<Node>): (start: Option<NodeId>)
    ensures start == None <==> |nodes| == 0
    ensures start.Some? ==> start.value == nodes[0].id
  {
    if |nodes| == 0 then None else Some(nodes[0].id)
  }

  /** startBFS on the page's node and edge lists. */
  method StartBfs(nodes: seq<Node>, arcs: seq<Arc>) returns (log: seq<NodeId>)
    ensures |nodes| == 0 ==> log == []
    ensures |nodes| > 0 ==> |log| > 0 && log[0] == nodes[0].id
    ensures NoDup(log)
    ensures |nodes| > 0 ==> forall x :: x in log <==> Reachable(ArcLinks(arcs), nodes[0].id, x)
    ensures forall i, j, n :: 0 <= i < j < |log| && Within(ArcLinks(arcs), log[0], log[j], n) ==>
              Within(ArcLinks(arcs), log[0], log[i], n)
  {
    log := BreadthFirst(ArcLinks(arcs), First(nodes));
  }
}
