/** edmondsKarp (tasks/task2/script.js): maximum flow by repeated breadth-first
    search for an augmenting path in a residual table. The nested dictionary
    `residualGraph[u][v]` is a map from the pair (u, v); the insertion order of
    each inner dictionary, which `for (let v in graph[u])` follows, is kept
    alongside as `rows[u]`. */
module MaxFlow {
  import opened Graph

  /** A directed edge with a capacity (the edge's weight). */
  datatype Pipe<K> = Pipe(from: K, to: K, capacity: int)

  // ------------------------------------------------------- residual table

  /** The value the edge-by-edge construction leaves in residualGraph[u][v]:
      the last edge that writes the pair decides, with `r[v][u] = 0` written
      after `r[u][v] = weight`. */
  function LastWrite<K(==)>(pipes: seq<Pipe<K>>, u: K, v: K): Option<int>
    decreases |pipes|
  {
    if |pipes| == 0 then None
    else
      var e := pipes[|pipes| - 1];
      if e.to == u && e.from == v then Some(0)
      else if e.from == u && e.to == v then Some(e.capacity)
      else LastWrite(pipes[..|pipes| - 1], u, v)
  }

  /** The keys of residualGraph[u] in insertion order. */
  function RowKeys<K(==)>(pipes: seq<Pipe<K>>, u: K): seq<K>
    decreases |pipes|
  {
    if |pipes| == 0 then []
    else
      var r := RowKeys(pipes[..|pipes| - 1], u);
      var e := pipes[|pipes| - 1];
      var r1 := if e.from == u && e.to !in r then r + [e.to] else r;
      if e.to == u && e.from !in r1 then r1 + [e.from] else r1
  }

  /** u is an endpoint of some edge, so residualGraph[u] exists. */
  predicate Endpoint<K(==)>(pipes: seq<Pipe<K>>, u: K)
    decreases |pipes|
  {
    |pipes| > 0 && (pipes[|pipes| - 1].from == u || pipes[|pipes| - 1].to == u || Endpoint(pipes[..|pipes| - 1], u))
  }

  lemma {:induction false} NoRow<K>(pipes: seq<Pipe<K>>, u: K)
    requires !Endpoint(pipes, u)
    ensures RowKeys(pipes, u) == []
    decreases |pipes|
  {
    if |pipes| > 0 {
      NoRow(pipes[..|pipes| - 1], u);
    }
  }

  /** Writing r[u][v] always writes r[v][u] too. */
  lemma {:induction false} LastWriteSymmetric<K>(pipes: seq<Pipe<K>>, u: K, v: K)
    ensures LastWrite(pipes, u, v).Some? <==> LastWrite(pipes, v, u).Some?
    decreases |pipes|
  {
    if |pipes| > 0 {
      LastWriteSymmetric(pipes[..|pipes| - 1], u, v);
    }
  }

  /** A written pair has its first node as an endpoint. */
  lemma {:induction false} LastWriteEndpoint<K>(pipes: seq<Pipe<K>>, u: K, v: K)
    requires LastWrite(pipes, u, v).Some?
    ensures Endpoint(pipes, u)
    decreases |pipes|
  {
    var e := pipes[|pipes| - 1];
    if !(e.to == u && e.from == v) && !(e.from == u && e.to == v) {
      LastWriteEndpoint(pipes[..|pipes| - 1], u, v);
    }
  }

  /** With no negative weight no entry is negative. */
  lemma {:induction false} LastWriteNonNegative<K>(pipes: seq<Pipe<K>>, u: K, v: K)
    requires forall k :: 0 <= k < |pipes| ==> pipes[k].capacity >= 0
    requires LastWrite(pipes, u, v).Some?
    ensures LastWrite(pipes, u, v).value >= 0
    decreases |pipes|
  {
    var e := pipes[|pipes| - 1];
    if !(e.to == u && e.from == v) && !(e.from == u && e.to == v) {
      LastWriteNonNegative(pipes[..|pipes| - 1], u, v);
    }
  }

  /** The keys of row u are exactly the v with r[u][v] written, each once. */
  lemma {:induction false} RowKeysWritten<K>(pipes: seq<Pipe<K>>, u: K)
    ensures forall v :: v in RowKeys(pipes, u) <==> LastWrite(pipes, u, v).Some?
    ensures NoDup(RowKeys(pipes, u))
    decreases |pipes|
  {
    if |pipes| > 0 {
      var init := pipes[..|pipes| - 1];
      RowKeysWritten(init, u);
      forall v
        ensures v in RowKeys(pipes, u) <==> LastWrite(pipes, u, v).Some?
      {
        LastWriteSymmetric(init, u, v);
      }
    }
  }

  /** An antiparallel edge added later zeroes the earlier edge's capacity. */
  lemma Antiparallel<K>(a: K, b: K, w1: int, w2: int)
    requires a != b
    ensures LastWrite([Pipe(a, b, w1), Pipe(b, a, w2)], a, b) == Some(0)
    ensures LastWrite([Pipe(a, b, w1), Pipe(b, a, w2)], b, a) == Some(w2)
  {
  }

  /** The keys of a row, none when the row does not exist yet. */
  function Row<K>(rows: map<K, seq<K>>, u: K): seq<K> {
    if u in rows then rows[u] else []
  }

  /** The key effect of `r[u][v] = x` on the JavaScript objects: the row of
      u exists afterwards and gains v at the end when v is a new key. */
  function Grow<K(==)>(rows: map<K, seq<K>>, u: K, v: K): (rows': map<K, seq<K>>)
    ensures rows'.Keys == rows.Keys + {u}
    ensures forall x :: x in rows && x != u ==> rows'[x] == rows[x]
    ensures rows'[u] == if v in Row(rows, u) then Row(rows, u) else Row(rows, u) + [v]
  {
    rows[u := if v in Row(rows, u) then Row(rows, u) else Row(rows, u) + [v]]
  }

  /** The table and rows after the edges ps. */
  ghost predicate Built<K(!new)>(ps: seq<Pipe<K>>, cap: map<(K, K), int>, rows: map<K, seq<K>>) {
    && (forall u, v :: (u, v) in cap <==> LastWrite(ps, u, v).Some?)
    && (forall u, v :: (u, v) in cap ==> cap[(u, v)] == LastWrite(ps, u, v).value)
    && (forall u :: u in rows <==> Endpoint(ps, u))
    && (forall u :: u in rows ==> rows[u] == RowKeys(ps, u))
  }

  lemma BuiltStep<K(!new)>(ps: seq<Pipe<K>>, e: Pipe<K>, cap: map<(K, K), int>, rows: map<K, seq<K>>)
    requires Built(ps, cap, rows)
    ensures Built(ps + [e], cap[(e.from, e.to) := e.capacity][(e.to, e.from) := 0],
                  Grow(Grow(rows, e.from, e.to), e.to, e.from))
  {
    var qs := ps + [e];
    assert qs[..|qs| - 1] == ps;
    BuiltRows(ps, e, rows);
  }

  lemma BuiltRows<K(!new)>(ps: seq<Pipe<K>>, e: Pipe<K>, rows: map<K, seq<K>>)
    requires forall u :: u in rows <==> Endpoint(ps, u)
    requires forall u :: u in rows ==> rows[u] == RowKeys(ps, u)
    ensures var rows' := Grow(Grow(rows, e.from, e.to), e.to, e.from);
      && (forall u :: u in rows' <==> Endpoint(ps + [e], u))
      && (forall u :: u in rows' ==> rows'[u] == RowKeys(ps + [e], u))
  {
    var qs := ps + [e];
    assert qs[..|qs| - 1] == ps;
    forall u | !Endpoint(ps, u)
      ensures RowKeys(ps, u) == []
    {
      NoRow(ps, u);
    }
  }

  /** `createResidualGraph`: for each edge in order, create the two inner
      dictionaries when missing, then set r[u][v] to the weight and r[v][u]
      to 0. */
  method Residual<K(==,!new)>(pipes: seq<Pipe<K>>) returns (cap: map<(K, K), int>, rows: map<K, seq<K>>)
    ensures forall u, v :: (u, v) in cap <==> LastWrite(pipes, u, v).Some?
    ensures forall u, v :: (u, v) in cap ==> cap[(u, v)] == LastWrite(pipes, u, v).value
    ensures forall u :: u in rows <==> Endpoint(pipes, u)
    ensures forall u :: u in rows ==> rows[u] == RowKeys(pipes, u)
    ensures Net(cap, rows)
    ensures (forall k :: 0 <= k < |pipes| ==> pipes[k].capacity >= 0) ==> Capacities(cap)
  {
    cap, rows := map[], map[];
    for i := 0 to |pipes|
      invariant Built(pipes[..i], cap, rows)
    {
      var e := pipes[i];
      BuiltStep(pipes[..i], e, cap, rows);
      assert pipes[..i + 1] == pipes[..i] + [e];
      rows := Grow(rows, e.from, e.to);
      cap := cap[(e.from, e.to) := e.capacity];
      rows := Grow(rows, e.to, e.from);
      cap := cap[(e.to, e.from) := 0];
    }
    assert pipes[..|pipes|] == pipes;
    ResidualNet(pipes, cap, rows);
  }

  lemma ResidualNet<K(!new)>(pipes: seq<Pipe<K>>, cap: map<(K, K), int>, rows: map<K, seq<K>>)
    requires forall u, v :: (u, v) in cap <==> LastWrite(pipes, u, v).Some?
    requires forall u, v :: (u, v) in cap ==> cap[(u, v)] == LastWrite(pipes, u, v).value
    requires forall u :: u in rows <==> Endpoint(pipes, u)
    requires forall u :: u in rows ==> rows[u] == RowKeys(pipes, u)
    ensures Net(cap, rows)
    ensures (forall k :: 0 <= k < |pipes| ==> pipes[k].capacity >= 0) ==> Capacities(cap)
  {
    forall u, v
      ensures (u, v) in cap ==> (v, u) in cap
      ensures (u, v) in cap <==> u in rows && v in rows[u]
    {
      LastWriteSymmetric(pipes, u, v);
      RowKeysWritten(pipes, u);
      if (u, v) in cap {
        LastWriteEndpoint(pipes, u, v);
      }
    }
    forall u | u in rows
      ensures NoDup(rows[u])
    {
      RowKeysWritten(pipes, u);
    }
    if forall k :: 0 <= k < |pipes| ==> pipes[k].capacity >= 0 {
      forall p | p in cap
        ensures cap[p] >= 0
      {
        LastWriteNonNegative(pipes, p.0, p.1);
      }
    }
  }

  /** The residual table's shape: every written pair has its reverse, and
      the row of u lists, once each, exactly the v with r[u][v] present. */
  ghost predicate Net<K(!new)>(cap: map<(K, K), int>, rows: map<K, seq<K>>) {
    && (forall u, v :: (u, v) in cap ==> (v, u) in cap)
    && (forall u, v :: (u, v) in cap <==> u in rows && v in rows[u])
    && (forall u :: u in rows ==> NoDup(rows[u]))
  }

  /** No residual capacity is negative. */
  ghost predicate Capacities<K(!new)>(cap: map<(K, K), int>) {
    forall p :: p in cap ==> cap[p] >= 0
  }

  /** `graph[u][v] > 0`: a residual edge that can carry more flow. */
  predicate Open<K(==)>(cap: map<(K, K), int>, u: K, v: K) {
    (u, v) in cap && cap[(u, v)] > 0
  }

  // ------------------------------------------------------ augmenting paths

  /** A walk along open residual edges. */
  ghost predicate Augmenting<K(!new)>(cap: map<(K, K), int>, p: seq<K>) {
    |p| > 0 && forall i :: 0 <= i < |p| - 1 ==> Open(cap, p[i], p[i + 1])
  }

  /** Some augmenting walk leads from s to t. */
  ghost predicate Connected<K(!new)>(cap: map<(K, K), int>, s: K, t: K) {
    exists p :: Augmenting(cap, p) && p[0] == s && p[|p| - 1] == t
  }

  /** No open edge leaves the set. */
  ghost predicate Sealed<K(!new)>(cap: map<(K, K), int>, seen: set<K>) {
    forall x, v :: x in seen && Open(cap, x, v) ==> v in seen
  }

  /** A sealed set holding s and not t cuts every augmenting walk. */
  lemma SealedBlocks<K(!new)>(cap: map<(K, K), int>, seen: set<K>, s: K, t: K)
    requires Sealed(cap, seen) && s in seen && t !in seen
    ensures !Connected(cap, s, t)
  {
    if p :| Augmenting(cap, p) && p[0] == s && p[|p| - 1] == t {
      var i := 0;
      while i < |p| - 1
        invariant 0 <= i < |p| && p[i] in seen
      {
        assert Open(cap, p[i], p[i + 1]);
        i := i + 1;
      }
    }
  }

  // -------------------------------------------------------- the search

  /** The parent of the k-th pushed node was pushed earlier, and the edge
      from it is open. */
  ghost predicate TreeAt<K(!new)>(cap: map<(K, K), int>, log: seq<K>, parent: map<K, Option<K>>, k: int)
    requires 0 <= k < |log|
  {
    && log[k] in parent && parent[log[k]].Some? && Lists(log, parent[log[k]].value)
    && Pos(log, parent[log[k]].value) < k && Open(cap, parent[log[k]].value, log[k])
  }

  /** The row of a dequeued node u, other than the sink, has been scanned:
      every open edge from u leads into seen. */
  ghost predicate Expanded<K(!new)>(cap: map<(K, K), int>, rows: map<K, seq<K>>, sink: K, seen: set<K>, u: K) {
    u != sink && forall v :: v in Row(rows, u) && Open(cap, u, v) ==> v in seen
  }

  /** The state of `bfs` with key-presence marking: log lists the pushed
      nodes from the source on, once each; the first h have been dequeued
      and scanned; parent has exactly the pushed nodes. */
  ghost predicate Frontier<K(!new)>(cap: map<(K, K), int>, rows: map<K, seq<K>>, source: K, sink: K,
                                    universe: set<K>, log: seq<K>, h: int, parent: map<K, Option<K>>)
  {
    && 0 < |log| && log[0] == source && 0 <= h <= |log| && NoDup(log)
    && (forall x {:trigger Lists(log, x)} :: x in parent <==> Lists(log, x))
    && source in parent && parent[source] == None
    && parent.Keys <= universe
    && (forall k :: 0 < k < |log| ==> TreeAt(cap, log, parent, k))
    && (forall j :: 0 <= j < h ==> Expanded(cap, rows, sink, parent.Keys, log[j]))
  }

  /** Within the scan of u = log[h]: the first i keys of its row are done. */
  ghost predicate Scanning<K(!new)>(cap: map<(K, K), int>, rows: map<K, seq<K>>, source: K, sink: K,
                                    universe: set<K>, log: seq<K>, h: int, parent: map<K, Option<K>>,
                                    u: K, vs: seq<K>, i: int)
  {
    && Frontier(cap, rows, source, sink, universe, log, h, parent)
    && h < |log| && log[h] == u && u != sink && vs == Row(rows, u) && 0 <= i <= |vs|
    && (forall k :: 0 <= k < i && Open(cap, u, vs[k]) ==> vs[k] in parent)
  }

  lemma ScanPush<K(!new)>(cap: map<(K, K), int>, rows: map<K, seq<K>>, source: K, sink: K,
                          universe: set<K>, log: seq<K>, h: int, parent: map<K, Option<K>>,
                          u: K, vs: seq<K>, i: int)
    requires Net(cap, rows) && universe == rows.Keys + {source}
    requires Scanning(cap, rows, source, sink, universe, log, h, parent, u, vs, i) && i < |vs|
    requires Open(cap, u, vs[i]) && vs[i] !in parent
    ensures Scanning(cap, rows, source, sink, universe, log + [vs[i]], h, parent[vs[i] := Some(u)], u, vs, i + 1)
  {
    var v := vs[i];
    var log', parent' := log + [v], parent[v := Some(u)];
    assert !Lists(log, v);
    assert v in rows by {
      assert (u, v) in cap;
    }
    forall x
      ensures x in parent' <==> Lists(log', x)
    {
      assert Lists(log', x) <==> Lists(log, x) || x == v;
    }
    assert Lists(log, u) && Pos(log, u) == h;
    PosSnoc(log, v, u);
    forall k | 0 < k < |log'|
      ensures TreeAt(cap, log', parent', k)
    {
      if k < |log| {
        assert log'[k] == log[k] && TreeAt(cap, log, parent, k);
        PosSnoc(log, v, parent[log[k]].value);
      }
    }
  }

  lemma ScanPass<K(!new)>(cap: map<(K, K), int>, rows: map<K, seq<K>>, source: K, sink: K,
                          universe: set<K>, log: seq<K>, h: int, parent: map<K, Option<K>>,
                          u: K, vs: seq<K>, i: int)
    requires Scanning(cap, rows, source, sink, universe, log, h, parent, u, vs, i) && i < |vs|
    requires !(Open(cap, u, vs[i]) && vs[i] !in parent)
    ensures Scanning(cap, rows, source, sink, universe, log, h, parent, u, vs, i + 1)
  {
  }

  lemma ScanDone<K(!new)>(cap: map<(K, K), int>, rows: map<K, seq<K>>, source: K, sink: K,
                          universe: set<K>, log: seq<K>, h: int, parent: map<K, Option<K>>,
                          u: K, vs: seq<K>)
    requires Scanning(cap, rows, source, sink, universe, log, h, parent, u, vs, |vs|)
    ensures Frontier(cap, rows, source, sink, universe, log, h + 1, parent)
  {
    assert Expanded(cap, rows, sink, parent.Keys, log[h]);
  }

  /** `for (let v in graph[u])` with key-presence marking: each open edge to
      a node without an entry gives it u as parent and queues it. */
  method Scan<K(==,!new)>(cap: map<(K, K), int>, rows: map<K, seq<K>>, u: K, queue: seq<K>,
                          parent: map<K, Option<K>>, ghost source: K, ghost sink: K,
                          ghost universe: set<K>, ghost log: seq<K>, ghost h: int)
    returns (queue': seq<K>, parent': map<K, Option<K>>, ghost log': seq<K>)
    requires Net(cap, rows) && universe == rows.Keys + {source}
    requires Frontier(cap, rows, source, sink, universe, log, h, parent)
    requires h < |log| && log[h] == u && u != sink && queue == log[h + 1..]
    ensures Frontier(cap, rows, source, sink, universe, log', h + 1, parent') && queue' == log'[h + 1..]
    ensures log <= log' && parent.Keys <= parent'.Keys
    ensures parent'.Keys == parent.Keys ==> log' == log
  {
    var vs := Row(rows, u);
    queue', parent', log' := queue, parent, log;
    for i := 0 to |vs|
      invariant Scanning(cap, rows, source, sink, universe, log', h, parent', u, vs, i)
      invariant queue' == log'[h + 1..] && log <= log' && parent.Keys <= parent'.Keys
      invariant parent'.Keys == parent.Keys ==> log' == log
    {
      var v := vs[i];
      if Open(cap, u, v) && v !in parent' {
        ScanPush(cap, rows, source, sink, universe, log', h, parent', u, vs, i);
        assert (log' + [v])[h + 1..] == log'[h + 1..] + [v];
        parent' := parent'[v := Some(u)];
        queue' := queue' + [v];
        log' := log' + [v];
      } else {
        ScanPass(cap, rows, source, sink, universe, log', h, parent', u, vs, i);
      }
    }
    ScanDone(cap, rows, source, sink, universe, log', h, parent', u, vs);
  }

  /** Every parent entry is a node pushed earlier: the premise under which
      the walk back through `parent` ends. */
  ghost predicate Ranked<K(!new)>(parent: map<K, Option<K>>, log: seq<K>) {
    && (forall x {:trigger Lists(log, x)} :: x in parent <==> Lists(log, x))
    && forall x :: x in parent && x in log && parent[x].Some? ==>
         parent[x].value in parent && parent[x].value in log && Pos(log, parent[x].value) < Pos(log, x)
  }

  /** What a finished search leaves in parent. */
  lemma FrontierTree<K(!new)>(cap: map<(K, K), int>, rows: map<K, seq<K>>, source: K, sink: K,
                              universe: set<K>, log: seq<K>, h: int, parent: map<K, Option<K>>)
    requires Frontier(cap, rows, source, sink, universe, log, h, parent)
    ensures Ranked(parent, log)
    ensures forall x :: x in parent ==> (parent[x].None? <==> x == source)
    ensures forall x :: x in parent && parent[x].Some? ==> Open(cap, parent[x].value, x)
  {
    forall x | x in parent
      ensures x in log && (parent[x].None? <==> x == source)
      ensures parent[x].Some? ==> parent[x].value in parent && parent[x].value in log
      ensures parent[x].Some? ==> Pos(log, parent[x].value) < Pos(log, x) && Open(cap, parent[x].value, x)
    {
      assert Lists(log, x);
      var k := Pos(log, x);
      if k > 0 {
        assert TreeAt(cap, log, parent, k);
        assert Lists(log, parent[x].value);
      }
    }
  }

  /** A search that ran out of queue has scanned every pushed node. */
  lemma FrontierSealed<K(!new)>(cap: map<(K, K), int>, rows: map<K, seq<K>>, source: K, sink: K,
                                universe: set<K>, log: seq<K>, parent: map<K, Option<K>>)
    requires Net(cap, rows) && Frontier(cap, rows, source, sink, universe, log, |log|, parent)
    ensures Sealed(cap, parent.Keys) && sink !in parent
  {
    forall x, v | x in parent.Keys && Open(cap, x, v)
      ensures v in parent.Keys
    {
      assert Lists(log, x);
      assert Expanded(cap, rows, sink, parent.Keys, log[Pos(log, x)]);
    }
    forall j | 0 <= j < |log|
      ensures log[j] != sink
    {
      assert Expanded(cap, rows, sink, parent.Keys, log[j]);
    }
    assert !Lists(log, sink);
  }

  /** The search part of `bfs` with the visited test on key presence
      (`!(v in parent)`): breadth-first from source until sink is dequeued
      or the queue runs out. */
  method Explore<K(==,!new)>(cap: map<(K, K), int>, rows: map<K, seq<K>>, source: K, sink: K)
    returns (found: bool, parent: map<K, Option<K>>, ghost log: seq<K>)
    requires Net(cap, rows)
    ensures Ranked(parent, log) && source in parent
    ensures forall x :: x in parent ==> (parent[x].None? <==> x == source)
    ensures forall x :: x in parent && parent[x].Some? ==> Open(cap, parent[x].value, x)
    ensures found <==> sink in parent
    ensures !found ==> Sealed(cap, parent.Keys)
  {
    ghost var universe := rows.Keys + {source};
    var queue := [source];
    parent := map[source := None];
    log := [source];
    ghost var h := 0;
    assert forall x :: Lists(log, x) <==> x == source;
    while |queue| > 0
      invariant Frontier(cap, rows, source, sink, universe, log, h, parent) && queue == log[h..]
      decreases universe - parent.Keys, |queue|
    {
      var u := queue[0];
      queue := queue[1..];
      if u == sink {
        FrontierTree(cap, rows, source, sink, universe, log, h, parent);
        assert Lists(log, u);
        return true, parent, log;
      }
      ghost var keys := parent.Keys;
      queue, parent, log := Scan(cap, rows, u, queue, parent, source, sink, universe, log, h);
      h := h + 1;
      if parent.Keys != keys {
        var x :| x in parent.Keys && x !in keys;
        assert x in universe;
      }
    }
    FrontierTree(cap, rows, source, sink, universe, log, h, parent);
    FrontierSealed(cap, rows, source, sink, universe, log, parent);
    found := false;
  }

  /** A finished walk back from sink: path ends at sink, each node's parent
      is the node before it, and the first node's parent is null. */
  ghost predicate Unwinds<K(!new)>(parent: map<K, Option<K>>, sink: K, path: seq<K>) {
    && |path| > 0 && path[|path| - 1] == sink
    && (forall i :: 0 <= i < |path| ==> path[i] in parent)
    && parent[path[0]] == None
    && (forall i :: 0 <= i < |path| - 1 ==> parent[path[i + 1]] == Some(path[i]))
  }

  /** The `while (current !== null)` walk back from sink, each node
      prepended: under Ranked it ends, at the node whose parent is null, and
      never repeats a node. */
  method Backtrack<K(==,!new)>(parent: map<K, Option<K>>, sink: K, ghost log: seq<K>) returns (path: seq<K>)
    requires sink in parent && Ranked(parent, log)
    ensures Unwinds(parent, sink, path) && NoDup(path)
  {
    assert Lists(log, sink);
    var current := Some(sink);
    path := [];
    while current.Some?
      invariant current.Some? ==> current.value in parent && current.value in log
      invariant forall i :: 0 <= i < |path| ==> path[i] in parent && path[i] in log
      invariant path == [] ==> current == Some(sink)
      invariant path != [] ==> path[|path| - 1] == sink && parent[path[0]] == current
      invariant forall i, j :: 0 <= i < j < |path| ==> Pos(log, path[i]) < Pos(log, path[j])
      invariant path != [] && current.Some? ==> Pos(log, current.value) < Pos(log, path[0])
      invariant forall i :: 0 <= i < |path| - 1 ==> parent[path[i + 1]] == Some(path[i])
      decreases if current.None? then 0 else Pos(log, current.value) + 1
    {
      var c := current.value;
      path := [c] + path;
      current := parent[c];
    }
  }

  /** `bfs(graph, source, sink)` with the corrected visited test: an
      augmenting walk from source to sink that repeats no node, or null
      exactly when there is none. */
  method Bfs<K(==,!new)>(cap: map<(K, K), int>, rows: map<K, seq<K>>, source: K, sink: K)
    returns (path: Option<seq<K>>)
    requires Net(cap, rows)
    ensures path.Some? ==> Augmenting(cap, path.value) && NoDup(path.value)
    ensures path.Some? ==> path.value[0] == source && path.value[|path.value| - 1] == sink
    ensures path.None? <==> !Connected(cap, source, sink)
  {
    var found, parent, log := Explore(cap, rows, source, sink);
    if !found {
      SealedBlocks(cap, parent.Keys, source, sink);
      return None;
    }
    var p := Backtrack(parent, sink, log);
    assert forall i :: 0 <= i < |p| - 1 ==> Open(cap, p[i], p[i + 1]);
    assert Augmenting(cap, p);
    return Some(p);
  }

  // ------------------------------------------ the search as written

  /** The nodes `!parent[v]` treats as visited: those with a non-null parent. */
  ghost function Marked<K(!new)>(parent: map<K, Option<K>>): set<K> {
    set x | x in parent && parent[x].Some?
  }

  /** Every open edge out of u leads to a node with a non-null parent. */
  ghost predicate Covered<K(!new)>(cap: map<(K, K), int>, rows: map<K, seq<K>>, parent: map<K, Option<K>>, u: K) {
    forall v :: v in Row(rows, u) && Open(cap, u, v) ==> v in parent && parent[v].Some?
  }

  /** The state of `bfs` as written, between two dequeues: order lists the
      dequeued nodes, each scanned; a non-null parent is a scanned node
      with an open edge to its child; only the source may have a null one. */
  ghost predicate Sweep<K(!new)>(cap: map<(K, K), int>, rows: map<K, seq<K>>, source: K, sink: K,
                                 order: seq<K>, queue: seq<K>, parent: map<K, Option<K>>)
  {
    && source in parent
    && (forall x :: x in parent && parent[x].None? ==> x == source)
    && (forall x :: x in parent && parent[x].Some? ==>
          parent[x].value in order && parent[x].value != sink && Open(cap, parent[x].value, x))
    && (forall j :: 0 <= j < |order| ==> order[j] != sink && Covered(cap, rows, parent, order[j]))
    && (if |order| == 0 then queue == [source] else order[0] == source)
    && (forall x :: x in queue ==> x in parent)
    && (forall x :: x in order ==> x in parent)
    && (forall x :: x in parent ==> x in order || x in queue)
  }

  /** Within the scan of u, the last of order: the first i keys of its row are done. */
  ghost predicate Sweeping<K(!new)>(cap: map<(K, K), int>, rows: map<K, seq<K>>, source: K, sink: K,
                                    order: seq<K>, queue: seq<K>, parent: map<K, Option<K>>,
                                    u: K, vs: seq<K>, i: int)
  {
    && 0 < |order| && order[|order| - 1] == u && order[0] == source && u != sink
    && vs == Row(rows, u) && 0 <= i <= |vs|
    && source in parent
    && (forall x :: x in parent && parent[x].None? ==> x == source)
    && (forall x :: x in parent && parent[x].Some? ==>
          parent[x].value in order && parent[x].value != sink && Open(cap, parent[x].value, x))
    && (forall j :: 0 <= j < |order| - 1 ==> order[j] != sink && Covered(cap, rows, parent, order[j]))
    && (forall k :: 0 <= k < i && Open(cap, u, vs[k]) ==> vs[k] in parent && parent[vs[k]].Some?)
    && (forall x :: x in queue ==> x in parent)
    && (forall x :: x in order ==> x in parent)
    && (forall x :: x in parent ==> x in order || x in queue)
  }

  lemma SweepStart<K(!new)>(cap: map<(K, K), int>, rows: map<K, seq<K>>, source: K, sink: K,
                            order: seq<K>, queue: seq<K>, parent: map<K, Option<K>>, u: K)
    requires Sweep(cap, rows, source, sink, order, [u] + queue, parent) && u != sink
    ensures Sweeping(cap, rows, source, sink, order + [u], queue, parent, u, Row(rows, u), 0)
  {
    var order' := order + [u];
    assert forall x :: x in order ==> x in order';
    forall x | x in parent ensures x in order' || x in queue {
      assert x in order || x in [u] + queue;
    }
    forall x | x in queue ensures x in parent {
      assert x in [u] + queue;
    }
  }

  lemma SweepPush<K(!new)>(cap: map<(K, K), int>, rows: map<K, seq<K>>, source: K, sink: K,
                           order: seq<K>, queue: seq<K>, parent: map<K, Option<K>>,
                           u: K, vs: seq<K>, i: int)
    requires Sweeping(cap, rows, source, sink, order, queue, parent, u, vs, i) && i < |vs|
    requires Open(cap, u, vs[i])
    ensures Sweeping(cap, rows, source, sink, order, queue + [vs[i]], parent[vs[i] := Some(u)], u, vs, i + 1)
  {
    var v, parent' := vs[i], parent[vs[i] := Some(u)];
    assert u in order;
    forall j | 0 <= j < |order| - 1
      ensures Covered(cap, rows, parent', order[j])
    {
      assert Covered(cap, rows, parent, order[j]);
    }
  }

  lemma SweepPass<K(!new)>(cap: map<(K, K), int>, rows: map<K, seq<K>>, source: K, sink: K,
                           order: seq<K>, queue: seq<K>, parent: map<K, Option<K>>,
                           u: K, vs: seq<K>, i: int)
    requires Sweeping(cap, rows, source, sink, order, queue, parent, u, vs, i) && i < |vs|
    requires !(Open(cap, u, vs[i]) && !(vs[i] in parent && parent[vs[i]].Some?))
    ensures Sweeping(cap, rows, source, sink, order, queue, parent, u, vs, i + 1)
  {
  }

  lemma SweepDone<K(!new)>(cap: map<(K, K), int>, rows: map<K, seq<K>>, source: K, sink: K,
                           order: seq<K>, queue: seq<K>, parent: map<K, Option<K>>, u: K, vs: seq<K>)
    requires Sweeping(cap, rows, source, sink, order, queue, parent, u, vs, |vs|)
    ensures Sweep(cap, rows, source, sink, order, queue, parent)
  {
    assert Covered(cap, rows, parent, u);
  }

  /** Only a node with an open edge into it gets a non-null parent. */
  lemma MarkedRows<K(!new)>(cap: map<(K, K), int>, rows: map<K, seq<K>>, parent: map<K, Option<K>>)
    requires Net(cap, rows)
    requires forall x :: x in parent && parent[x].Some? ==> Open(cap, parent[x].value, x)
    ensures Marked(parent) <= rows.Keys
  {
    forall x | x in Marked(parent) ensures x in rows {
      assert (parent[x].value, x) in cap;
    }
  }

  /** No node loses its entry, and a node with a non-null parent keeps it:
      only a missing or null parent can be set. */
  ghost predicate Settled<K(!new)>(parent: map<K, Option<K>>, parent': map<K, Option<K>>) {
    && parent.Keys <= parent'.Keys
    && forall x :: x in parent && parent[x].Some? ==> parent'[x] == parent[x]
  }

  lemma SettledPush<K(!new)>(parent: map<K, Option<K>>, parent': map<K, Option<K>>, v: K, u: K)
    requires Settled(parent, parent') && !(v in parent' && parent'[v].Some?)
    ensures Settled(parent, parent'[v := Some(u)])
  {
  }

  /** The push log of `bfs` as written: log lists every push from the
      source on, order the dequeued ones and queue the rest; parent has
      exactly the logged nodes. While the source's parent is still null no
      node has been pushed twice and every parent was pushed before its
      child, as in the corrected search. */
  ghost predicate Pushed<K(!new)>(cap: map<(K, K), int>, source: K, log: seq<K>,
                                  order: seq<K>, queue: seq<K>, parent: map<K, Option<K>>)
  {
    && order + queue == log && 0 < |log| && log[0] == source
    && (forall x {:trigger Lists(log, x)} :: x in parent <==> Lists(log, x))
    && (source in parent && parent[source].None? ==>
          NoDup(log) && forall k :: 0 < k < |log| ==> TreeAt(cap, log, parent, k))
  }

  lemma PushedStart<K(!new)>(cap: map<(K, K), int>, source: K, log: seq<K>,
                             order: seq<K>, queue: seq<K>, parent: map<K, Option<K>>, u: K)
    requires Pushed(cap, source, log, order, [u] + queue, parent)
    ensures Pushed(cap, source, log, order + [u], queue, parent)
  {
    assert order + [u] + queue == order + ([u] + queue);
  }

  /** Pushing v from u, the last dequeued node, when v's parent is missing
      or null. */
  lemma PushedPush<K(!new)>(cap: map<(K, K), int>, source: K, log: seq<K>,
                            order: seq<K>, queue: seq<K>, parent: map<K, Option<K>>, u: K, v: K)
    requires Pushed(cap, source, log, order, queue, parent)
    requires 0 < |order| && order[|order| - 1] == u && Open(cap, u, v)
    requires !(v in parent && parent[v].Some?)
    requires forall x :: x in parent && parent[x].None? ==> x == source
    ensures Pushed(cap, source, log + [v], order, queue + [v], parent[v := Some(u)])
  {
    var log', parent' := log + [v], parent[v := Some(u)];
    assert order + (queue + [v]) == log';
    forall x
      ensures x in parent' <==> Lists(log', x)
    {
      assert Lists(log', x) <==> Lists(log, x) || x == v;
    }
    if source in parent' && parent'[source].None? {
      assert v != source && v !in parent && !Lists(log, v);
      assert u == log[|order| - 1];
      assert Lists(log, u) && Pos(log, u) < |log|;
      PosSnoc(log, v, u);
      forall k | 0 < k < |log'|
        ensures TreeAt(cap, log', parent', k)
      {
        if k < |log| {
          assert log'[k] == log[k] && TreeAt(cap, log, parent, k);
          PosSnoc(log, v, parent[log[k]].value);
        }
      }
    }
  }

  /** While the source's parent is null the push log ranks parent, so the
      walk back from any logged node ends. */
  lemma PushedRanked<K(!new)>(cap: map<(K, K), int>, source: K, log: seq<K>,
                              order: seq<K>, queue: seq<K>, parent: map<K, Option<K>>)
    requires Pushed(cap, source, log, order, queue, parent)
    requires source in parent && parent[source] == None
    ensures Ranked(parent, log)
  {
    forall x | x in parent && x in log && parent[x].Some?
      ensures parent[x].value in parent && parent[x].value in log && Pos(log, parent[x].value) < Pos(log, x)
    {
      var k := Pos(log, x);
      assert 0 < k && TreeAt(cap, log, parent, k);
    }
  }

  /** `for (let v in graph[u])` as written: an open edge to a node whose
      parent is missing or null gives it u as parent and queues it, so the
      source, whose parent is null, can be given one. */
  method ScanAsWritten<K(==,!new)>(cap: map<(K, K), int>, rows: map<K, seq<K>>, u: K, queue: seq<K>,
                                   parent: map<K, Option<K>>, ghost source: K, ghost sink: K,
                                   ghost order: seq<K>, ghost log: seq<K>)
    returns (queue': seq<K>, parent': map<K, Option<K>>, ghost log': seq<K>)
    requires Net(cap, rows) && u != sink
    requires Sweep(cap, rows, source, sink, order, [u] + queue, parent)
    requires Pushed(cap, source, log, order, [u] + queue, parent)
    ensures Sweep(cap, rows, source, sink, order + [u], queue', parent')
    ensures Pushed(cap, source, log', order + [u], queue', parent')
    ensures Marked(parent) <= Marked(parent') <= rows.Keys
    ensures Marked(parent') == Marked(parent) ==> queue' == queue
    ensures Settled(parent, parent')
  {
    var vs := Row(rows, u);
    queue', parent', log' := queue, parent, log;
    SweepStart(cap, rows, source, sink, order, queue, parent, u);
    PushedStart(cap, source, log, order, queue, parent, u);
    for i := 0 to |vs|
      invariant Sweeping(cap, rows, source, sink, order + [u], queue', parent', u, vs, i)
      invariant Pushed(cap, source, log', order + [u], queue', parent')
      invariant Marked(parent) <= Marked(parent')
      invariant Marked(parent') == Marked(parent) ==> queue' == queue
      invariant Settled(parent, parent')
    {
      var v := vs[i];
      if Open(cap, u, v) && !(v in parent' && parent'[v].Some?) {
        SweepPush(cap, rows, source, sink, order + [u], queue', parent', u, vs, i);
        assert v !in Marked(parent');
        SettledPush(parent, parent', v, u);
        PushedPush(cap, source, log', order + [u], queue', parent', u, v);
        parent' := parent'[v := Some(u)];
        queue' := queue' + [v];
        log' := log' + [v];
        assert v in Marked(parent');
      } else {
        SweepPass(cap, rows, source, sink, order + [u], queue', parent', u, vs, i);
      }
    }
    SweepDone(cap, rows, source, sink, order + [u], queue', parent', u, vs);
    MarkedRows(cap, rows, parent');
  }

  /** What `bfs` as written leaves behind: order lists the dequeued nodes
      from the source on, each other than the sink scanned; parent covers
      them, a non-null parent is a scanned node with an open edge to its
      child, and only the source may have a null one; found says the sink
      was dequeued, and otherwise every node with a parent was dequeued. */
  ghost predicate Explored<K(!new)>(cap: map<(K, K), int>, rows: map<K, seq<K>>, source: K, sink: K,
                                    found: bool, parent: map<K, Option<K>>, order: seq<K>)
  {
    && source in parent && 0 < |order| && order[0] == source
    && (forall x :: x in parent && parent[x].None? ==> x == source)
    && (forall x :: x in parent && parent[x].Some? ==>
          parent[x].value in order && parent[x].value != sink && Open(cap, parent[x].value, x))
    && (forall j :: 0 <= j < |order| && order[j] != sink ==> Covered(cap, rows, parent, order[j]))
    && (forall x :: x in order ==> x in parent)
    && (found <==> sink in order)
    && (!found ==> forall x :: x in parent ==> x in order)
  }

  /** `bfs` as written: breadth-first from source, every dequeued node other
      than the sink scanned, until the sink is dequeued or the queue runs out. */
  method ExploreAsWritten<K(==,!new)>(cap: map<(K, K), int>, rows: map<K, seq<K>>, source: K, sink: K)
    returns (found: bool, parent: map<K, Option<K>>, ghost order: seq<K>, ghost log: seq<K>)
    requires Net(cap, rows)
    ensures Explored(cap, rows, source, sink, found, parent, order)
    ensures parent[source] == None ==> Ranked(parent, log)
    ensures parent[source].Some? ==> forall path :: !Unwinds(parent, sink, path)
  {
    var queue := [source];
    parent := map[source := None];
    order, log := [], [source];
    assert forall x :: Lists(log, x) <==> x == source;
    while |queue| > 0
      invariant Sweep(cap, rows, source, sink, order, queue, parent)
      invariant Pushed(cap, source, log, order, queue, parent)
      invariant Marked(parent) <= rows.Keys && sink !in order
      decreases rows.Keys - Marked(parent), |queue|
    {
      var u := queue[0];
      var rest := queue[1..];
      assert queue == [u] + rest;
      queue := rest;
      if u == sink {
        PushedStart(cap, source, log, order, rest, parent, u);
        order := order + [u];
        assert forall j :: 0 <= j < |order| - 1 ==> order[j] != sink;
        if parent[source] == None {
          PushedRanked(cap, source, log, order, rest, parent);
        }
        return true, parent, order, log;
      }
      ghost var marked := Marked(parent);
      queue, parent, log := ScanAsWritten(cap, rows, u, queue, parent, source, sink, order, log);
      order := order + [u];
    }
    assert |order| > 0;
    if parent[source] == None {
      PushedRanked(cap, source, log, order, queue, parent);
    }
    found := false;
  }

  /** With the source re-parented no node has a null parent, so the walk
      back from the sink never ends. */
  lemma NeverUnwinds<K(!new)>(cap: map<(K, K), int>, rows: map<K, seq<K>>, source: K, sink: K,
                              found: bool, parent: map<K, Option<K>>, order: seq<K>)
    requires Explored(cap, rows, source, sink, found, parent, order)
    requires parent[source].Some?
    ensures forall path :: !Unwinds(parent, sink, path)
  {
  }

  /** Under Ranked every walk back ends at a node with a null parent. */
  lemma {:induction false} RankedUnwinds<K(!new)>(parent: map<K, Option<K>>, log: seq<K>, x: K)
    requires Ranked(parent, log) && x in parent
    ensures exists path :: Unwinds(parent, x, path)
    decreases if x in log then Pos(log, x) else 0
  {
    assert Lists(log, x);
    if parent[x] == None {
      assert Unwinds(parent, x, [x]);
    } else {
      var y := parent[x].value;
      RankedUnwinds(parent, log, y);
      var path :| Unwinds(parent, y, path);
      assert Unwinds(parent, x, path + [x]);
    }
  }

  /** After the sink is dequeued, reconstruction from it ends exactly when
      the source's parent is still null. */
  lemma AsWrittenEnds<K(!new)>(cap: map<(K, K), int>, rows: map<K, seq<K>>, source: K, sink: K,
                               found: bool, parent: map<K, Option<K>>, order: seq<K>, log: seq<K>)
    requires Explored(cap, rows, source, sink, found, parent, order) && found
    requires parent[source] == None ==> Ranked(parent, log)
    ensures parent[source] == None <==> exists path :: Unwinds(parent, sink, path)
  {
    if parent[source] == None {
      RankedUnwinds(parent, log, sink);
    } else {
      NeverUnwinds(cap, rows, source, sink, found, parent, order);
    }
  }

  /** The residual table after the first round on the network s->a (2),
      a->t (1), a->b (1), b->t (1): the walk s, a, t carried one unit. */
  ghost function SecondRound<K(!new)>(s: K, a: K, b: K, t: K): map<(K, K), int> {
    map[(s, a) := 1, (a, s) := 1, (a, t) := 0, (t, a) := 1,
        (a, b) := 1, (b, a) := 0, (b, t) := 1, (t, b) := 0]
  }

  /** The network of the finding, in insertion order. */
  function FindingPipes<K>(s: K, a: K, b: K, t: K): seq<Pipe<K>> {
    [Pipe(s, a, 2), Pipe(a, t, 1), Pipe(a, b, 1), Pipe(b, t, 1)]
  }

  /** `r[u][v] = weight; r[v][u] = 0` edge by edge on that network. */
  lemma FindingTable<K(!new)>(s: K, a: K, b: K, t: K, u: K, v: K)
    requires s != a && s != b && s != t && a != b && a != t && b != t
    ensures var first := map[(s, a) := 2, (a, s) := 0, (a, t) := 1, (t, a) := 0,
                             (a, b) := 1, (b, a) := 0, (b, t) := 1, (t, b) := 0];
      LastWrite(FindingPipes(s, a, b, t), u, v) == if (u, v) in first then Some(first[(u, v)]) else None
  {
    var ps := FindingPipes(s, a, b, t);
    var p3, p2, p1 := ps[..3], ps[..2], ps[..1];
    assert p3 == [Pipe(s, a, 2), Pipe(a, t, 1), Pipe(a, b, 1)] && ps[..3][..2] == p2;
    assert p2 == [Pipe(s, a, 2), Pipe(a, t, 1)] && p2[..1] == p1;
    assert p1 == [Pipe(s, a, 2)] && p1[..0] == [];
    var m1 := map[(s, a) := 2, (a, s) := 0];
    var m2 := m1[(a, t) := 1][(t, a) := 0];
    var m3 := m2[(a, b) := 1][(b, a) := 0];
    assert LastWrite(p1, u, v) == if (u, v) in m1 then Some(m1[(u, v)]) else None;
    assert LastWrite(p2, u, v) == if (u, v) in m2 then Some(m2[(u, v)]) else None;
    assert LastWrite(p3, u, v) == if (u, v) in m3 then Some(m3[(u, v)]) else None;
  }

  /** The rows the loop builds on that network, in insertion order. */
  lemma FindingRows<K(!new)>(s: K, a: K, b: K, t: K, u: K)
    requires s != a && s != b && s != t && a != b && a != t && b != t
    ensures Endpoint(FindingPipes(s, a, b, t), u) <==> u == s || u == a || u == b || u == t
    ensures RowKeys(FindingPipes(s, a, b, t), u) ==
      if u == s then [a] else if u == a then [s, t, b] else if u == t then [a, b] else if u == b then [a, t] else []
  {
    var ps := FindingPipes(s, a, b, t);
    var p3, p2, p1 := ps[..3], ps[..2], ps[..1];
    assert p3 == [Pipe(s, a, 2), Pipe(a, t, 1), Pipe(a, b, 1)] && ps[..3][..2] == p2;
    assert p2 == [Pipe(s, a, 2), Pipe(a, t, 1)] && p2[..1] == p1;
    assert p1 == [Pipe(s, a, 2)] && p1[..0] == [];
    assert Endpoint(p1, u) <==> u == s || u == a;
    assert Endpoint(p2, u) <==> u == s || u == a || u == t;
    assert Endpoint(p3, u) <==> u == s || u == a || u == t || u == b;
    assert RowKeys(p1, u) == if u == s then [a] else if u == a then [s] else [];
    assert RowKeys(p2, u) == if u == s then [a] else if u == a then [s, t] else if u == t then [a] else [];
    assert RowKeys(p3, u) == if u == s then [a] else if u == a then [s, t, b] else if u == t then [a] else if u == b then [a] else [];
  }

  /** The residual table the loop builds on that network. */
  lemma FindingBuilt<K(!new)>(s: K, a: K, b: K, t: K, cap: map<(K, K), int>, rows: map<K, seq<K>>)
    requires s != a && s != b && s != t && a != b && a != t && b != t
    requires Built(FindingPipes(s, a, b, t), cap, rows)
    ensures cap == map[(s, a) := 2, (a, s) := 0, (a, t) := 1, (t, a) := 0,
                       (a, b) := 1, (b, a) := 0, (b, t) := 1, (t, b) := 0]
  {
    var first := map[(s, a) := 2, (a, s) := 0, (a, t) := 1, (t, a) := 0,
                     (a, b) := 1, (b, a) := 0, (b, t) := 1, (t, b) := 0];
    forall pr | pr in cap
      ensures pr in first && cap[pr] == first[pr]
    {
      FindingTable(s, a, b, t, pr.0, pr.1);
    }
    forall pr | pr in first
      ensures pr in cap
    {
      FindingTable(s, a, b, t, pr.0, pr.1);
    }
  }

  /** The rows the loop builds on that network. */
  lemma FindingBuiltRows<K(!new)>(s: K, a: K, b: K, t: K, cap: map<(K, K), int>, rows: map<K, seq<K>>)
    requires s != a && s != b && s != t && a != b && a != t && b != t
    requires Built(FindingPipes(s, a, b, t), cap, rows)
    ensures rows == map[s := [a], a := [s, t, b], t := [a, b], b := [a, t]]
  {
    var table := map[s := [a], a := [s, t, b], t := [a, b], b := [a, t]];
    forall u | u in rows
      ensures u in table && rows[u] == table[u]
    {
      FindingRows(s, a, b, t, u);
    }
    forall u | u in table
      ensures u in rows
    {
      FindingRows(s, a, b, t, u);
    }
  }

  /** The first round on that network: the residual table the loop builds,
      with the rows in insertion order, and after pushing one unit along
      s, a, t the table of the second round. */
  lemma FirstRound<K(!new)>(s: K, a: K, b: K, t: K, cap: map<(K, K), int>, rows: map<K, seq<K>>)
    requires s != a && s != b && s != t && a != b && a != t && b != t
    requires Built(FindingPipes(s, a, b, t), cap, rows)
    ensures rows == map[s := [a], a := [s, t, b], t := [a, b], b := [a, t]]
    ensures Steps(cap, [s, a, t]) && Augmented(cap, [s, a, t], 1) == SecondRound(s, a, b, t)
  {
    FindingBuilt(s, a, b, t, cap, rows);
    FindingBuiltRows(s, a, b, t, cap, rows);
    AugmentedTwoSteps(cap, s, a, t, 1);
    var c := Push(cap, s, a, 1);
    assert c == cap[(s, a) := 1][(a, s) := 1];
    assert Push(c, a, t, 1) == c[(a, t) := 0][(t, a) := 1];
  }

  /** Augmenting along a walk of three nodes is its two pushes. */
  lemma AugmentedTwoSteps<K(!new)>(cap: map<(K, K), int>, x: K, y: K, z: K, f: int)
    requires (x, y) in cap && (y, x) in cap && (y, z) in cap && (z, y) in cap
    ensures Steps(cap, [x, y, z])
    ensures Augmented(cap, [x, y, z], f) == Push(Push(cap, x, y, f), y, z, f)
  {
    var p := [x, y, z];
    assert p[1..] == [y, z] && p[1..][1..] == [z];
    assert forall i :: 0 <= i < 2 ==> (p[i], p[i + 1]) in cap && (p[i + 1], p[i]) in cap;
    var c := Push(cap, x, y, f);
    assert Augmented(cap, p, f) == Augmented(c, [y, z], f);
    assert Augmented(c, [y, z], f) == Augmented(Push(c, y, z, f), [z], f);
  }

  /** The open edges of that table, and into each node the only ones. */
  lemma SecondRoundOpen<K(!new)>(s: K, a: K, b: K, t: K)
    requires s != a && s != b && s != t && a != b && a != t && b != t
    ensures var cap := SecondRound(s, a, b, t);
      && Open(cap, s, a) && Open(cap, a, s) && Open(cap, a, b) && Open(cap, b, t)
      && (forall y :: Open(cap, y, s) ==> y == a)
      && (forall y :: Open(cap, y, a) ==> y == s || y == t)
      && (forall y :: Open(cap, y, b) ==> y == a)
      && (forall y :: Open(cap, y, t) ==> y == b)
  {
  }

  /** On that table `bfs` as written gives the source a parent: a's own
      parent is s, and s's is a, so the walk back from t runs t, b, a, s,
      a, s, ... and never meets a null parent. */
  lemma ReparentedSource<K(!new)>(s: K, a: K, b: K, t: K, found: bool, parent: map<K, Option<K>>, order: seq<K>)
    requires s != a && s != b && s != t && a != b && a != t && b != t
    requires Explored(SecondRound(s, a, b, t), map[s := [a], a := [s, t, b], t := [a, b], b := [a, t]],
                      s, t, found, parent, order)
    ensures found && a in parent && b in parent && t in parent
    ensures parent[s] == Some(a) && parent[a] == Some(s) && parent[b] == Some(a) && parent[t] == Some(b)
    ensures forall path :: !Unwinds(parent, t, path)
  {
    var cap := SecondRound(s, a, b, t);
    var rows := map[s := [a], a := [s, t, b], t := [a, b], b := [a, t]];
    SecondRoundOpen(s, a, b, t);
    assert Row(rows, s) == [a] && Row(rows, a) == [s, t, b] && Row(rows, b) == [a, t];
    assert Covered(cap, rows, parent, s);
    assert parent[a] == Some(s);
    assert parent[t] == Some(b);
    assert parent[b] == Some(a);
    assert Covered(cap, rows, parent, a);
    assert parent[s] == Some(a);
    NeverUnwinds(cap, rows, s, t, found, parent, order);
  }

  // --------------------------------------------------- augmenting a path

  /** Every step of p, and its reverse, has an entry in the table. */
  ghost predicate Steps<K(!new)>(cap: map<(K, K), int>, p: seq<K>) {
    forall i :: 0 <= i < |p| - 1 ==> (p[i], p[i + 1]) in cap && (p[i + 1], p[i]) in cap
  }

  /** An augmenting walk in a residual table has the reverse of every step. */
  lemma AugmentingSteps<K(!new)>(cap: map<(K, K), int>, rows: map<K, seq<K>>, p: seq<K>)
    requires Net(cap, rows) && Augmenting(cap, p)
    ensures Steps(cap, p)
  {
    forall i | 0 <= i < |p| - 1 ensures (p[i], p[i + 1]) in cap && (p[i + 1], p[i]) in cap {
      assert Open(cap, p[i], p[i + 1]);
    }
  }

  /** The `pathFlow = Math.min(pathFlow, residualGraph[u][v])` loop from
      Infinity: Infinity for a walk of one node, otherwise the smallest
      capacity along the walk. */
  method Bottleneck<K(==,!new)>(cap: map<(K, K), int>, path: seq<K>) returns (pathFlow: Ext)
    requires Augmenting(cap, path)
    ensures |path| == 1 <==> pathFlow == Inf
    ensures pathFlow.Fin? ==> pathFlow.n > 0
    ensures forall i :: 0 <= i < |path| - 1 ==> pathFlow.AtMost(Fin(cap[(path[i], path[i + 1])]))
    ensures pathFlow.Fin? ==> exists i :: 0 <= i < |path| - 1 && pathFlow.n == cap[(path[i], path[i + 1])]
  {
    pathFlow := Inf;
    for i := 0 to |path| - 1
      invariant i == 0 <==> pathFlow == Inf
      invariant pathFlow.Fin? ==> pathFlow.n > 0
      invariant forall k :: 0 <= k < i ==> pathFlow.AtMost(Fin(cap[(path[k], path[k + 1])]))
      invariant pathFlow.Fin? ==> exists k :: 0 <= k < i && pathFlow.n == cap[(path[k], path[k + 1])]
    {
      assert Open(cap, path[i], path[i + 1]);
      var c := cap[(path[i], path[i + 1])];
      if pathFlow.Inf? || c < pathFlow.n {
        pathFlow := Fin(c);
      }
    }
  }

  /** One step of the update loop: `r[u][v] -= f; r[v][u] += f`. */
  function Push<K(==)>(cap: map<(K, K), int>, u: K, v: K, f: int): (cap': map<(K, K), int>)
    requires (u, v) in cap && (v, u) in cap
    ensures cap'.Keys == cap.Keys
  {
    var c := cap[(u, v) := cap[(u, v)] - f];
    c[(v, u) := c[(v, u)] + f]
  }

  /** The table after the update loop along p, step by step from the front. */
  ghost function Augmented<K(!new)>(cap: map<(K, K), int>, p: seq<K>, f: int): (cap': map<(K, K), int>)
    requires Steps(cap, p)
    ensures cap'.Keys == cap.Keys
    decreases |p|
  {
    if |p| < 2 then cap
    else
      var c := Push(cap, p[0], p[1], f);
      assert Steps(c, p[1..]) by {
        forall i | 0 <= i < |p[1..]| - 1 ensures (p[1..][i], p[1..][i + 1]) in c && (p[1..][i + 1], p[1..][i]) in c {
          assert p[1..][i] == p[i + 1] && p[1..][i + 1] == p[i + 2];
        }
      }
      Augmented(c, p[1..], f)
  }

  /** The update loop of `edmondsKarp`: every step of the path loses f of
      residual capacity forward and gains f backward. */
  method Augment<K(==,!new)>(cap: map<(K, K), int>, path: seq<K>, f: int) returns (cap': map<(K, K), int>)
    requires Steps(cap, path)
    ensures cap' == Augmented(cap, path, f)
  {
    cap' := cap;
    var i := 0;
    while i < |path| - 1
      invariant 0 <= i <= |path| && (|path| > 0 ==> i < |path|)
      invariant Steps(cap', path[i..]) && Augmented(cap', path[i..], f) == Augmented(cap, path, f)
    {
      assert path[i..][0] == path[i] && path[i..][1] == path[i + 1] && path[i..][1..] == path[i + 1..];
      cap' := Push(cap', path[i], path[i + 1], f);
      i := i + 1;
    }
    if |path| > 0 {
      assert |path[i..]| < 2;
    } else {
      assert path[i..] == path;
    }
  }

  /** y immediately follows x somewhere on p. */
  ghost predicate Next<K(!new)>(p: seq<K>, x: K, y: K) {
    exists i :: 0 <= i < |p| - 1 && p[i] == x && p[i + 1] == y
  }

  lemma {:induction false} NextTail<K(!new)>(p: seq<K>, x: K, y: K)
    requires |p| >= 2
    ensures Next(p, x, y) <==> (x == p[0] && y == p[1]) || Next(p[1..], x, y)
  {
    if Next(p, x, y) {
      var i :| 0 <= i < |p| - 1 && p[i] == x && p[i + 1] == y;
      if i > 0 {
        assert p[1..][i - 1] == x && p[1..][i] == y;
      }
    }
    if Next(p[1..], x, y) {
      var i :| 0 <= i < |p[1..]| - 1 && p[1..][i] == x && p[1..][i + 1] == y;
      assert p[i + 1] == x && p[i + 2] == y;
    }
  }

  lemma NextIn<K(!new)>(p: seq<K>, x: K, y: K)
    ensures Next(p, x, y) ==> x in p && y in p
  {
    if Next(p, x, y) {
      var i :| 0 <= i < |p| - 1 && p[i] == x && p[i + 1] == y;
    }
  }

  /** How far the update along p moves the entry (x, y). */
  ghost function Shift<K(!new)>(p: seq<K>, x: K, y: K, f: int): int {
    (if Next(p, y, x) then f else 0) - (if Next(p, x, y) then f else 0)
  }

  /** Along a walk that repeats no node, each step loses exactly f forward
      and gains exactly f backward, and nothing else moves. */
  lemma {:induction false} AugmentedAt<K(!new)>(cap: map<(K, K), int>, p: seq<K>, f: int, x: K, y: K)
    requires Steps(cap, p) && NoDup(p) && (x, y) in cap
    ensures Augmented(cap, p, f)[(x, y)] == cap[(x, y)] + Shift(p, x, y, f)
    decreases |p|
  {
    if |p| < 2 {
      assert !Next(p, x, y) && !Next(p, y, x);
    } else {
      var c := Push(cap, p[0], p[1], f);
      assert p[0] !in p[1..] by {
        forall i | 0 <= i < |p[1..]| ensures p[1..][i] != p[0] {
          assert p[1..][i] == p[i + 1];
        }
      }
      assert NoDup(p[1..]) by {
        forall i, j | 0 <= i < j < |p[1..]| ensures p[1..][i] != p[1..][j] {
          assert p[1..][i] == p[i + 1] && p[1..][j] == p[j + 1];
        }
      }
      AugmentedAt(c, p[1..], f, x, y);
      NextTail(p, x, y);
      NextTail(p, y, x);
      NextIn(p[1..], x, y);
      NextIn(p[1..], y, x);
    }
  }

  /** The update moves capacity between the two directions of a pair and
      never changes their sum. */
  lemma {:induction false} AugmentedPairs<K(!new)>(cap: map<(K, K), int>, p: seq<K>, f: int, x: K, y: K)
    requires Steps(cap, p) && (x, y) in cap && (y, x) in cap
    ensures Augmented(cap, p, f)[(x, y)] + Augmented(cap, p, f)[(y, x)] == cap[(x, y)] + cap[(y, x)]
    decreases |p|
  {
    if |p| >= 2 {
      var c := Push(cap, p[0], p[1], f);
      assert c[(x, y)] + c[(y, x)] == cap[(x, y)] + cap[(y, x)];
      AugmentedPairs(c, p[1..], f, x, y);
    }
  }

  // ------------------------------------------------------ edmondsKarp

  /** The positive entries r[u][v] summed over the keys vs of u's row. */
  ghost function RowSum<K(!new)>(cap: map<(K, K), int>, u: K, vs: seq<K>): nat
    decreases |vs|
  {
    if |vs| == 0 then 0
    else (if Open(cap, u, vs[0]) then cap[(u, vs[0])] else 0) + RowSum(cap, u, vs[1..])
  }

  /** The open residual capacity out of u. */
  ghost function Out<K(!new)>(cap: map<(K, K), int>, rows: map<K, seq<K>>, u: K): nat {
    RowSum(cap, u, Row(rows, u))
  }

  /** Lowering one open entry of a row that repeats no key by at most its
      value lowers the sum by as much. */
  lemma {:induction false} RowSumDrop<K(!new)>(cap: map<(K, K), int>, cap': map<(K, K), int>, u: K, vs: seq<K>, w: K, f: int)
    requires NoDup(vs) && cap'.Keys == cap.Keys && (u, w) in cap && 0 <= f <= cap[(u, w)]
    requires cap'[(u, w)] == cap[(u, w)] - f
    requires forall k :: 0 <= k < |vs| && vs[k] != w && (u, vs[k]) in cap ==> cap'[(u, vs[k])] == cap[(u, vs[k])]
    ensures RowSum(cap', u, vs) == RowSum(cap, u, vs) - (if w in vs then f else 0)
    decreases |vs|
  {
    if |vs| > 0 {
      assert forall k :: 0 <= k < |vs[1..]| ==> vs[1..][k] == vs[k + 1];
      assert NoDup(vs[1..]);
      RowSumDrop(cap, cap', u, vs[1..], w, f);
      assert w in vs <==> w == vs[0] || w in vs[1..];
      assert vs[0] !in vs[1..];
    }
  }

  /** f is the smallest capacity along p. */
  ghost predicate Narrowest<K(!new)>(cap: map<(K, K), int>, p: seq<K>, f: int)
    requires Steps(cap, p)
  {
    && (forall i :: 0 <= i < |p| - 1 ==> f <= cap[(p[i], p[i + 1])])
    && exists i :: 0 <= i < |p| - 1 && f == cap[(p[i], p[i + 1])]
  }

  /** One round of the loop: an augmenting walk from source to sink that
      repeats no node, its bottleneck f, and the table after pushing f. */
  ghost predicate Round<K(!new)>(cap: map<(K, K), int>, source: K, sink: K, p: seq<K>, f: int, cap': map<(K, K), int>) {
    && |p| >= 2 && p[0] == source && p[|p| - 1] == sink && NoDup(p)
    && Augmenting(cap, p) && Steps(cap, p) && Narrowest(cap, p, f) && cap' == Augmented(cap, p, f)
  }

  /** The capacity of each pair, counted in both directions, is unchanged. */
  ghost predicate Conserved<K(!new)>(cap0: map<(K, K), int>, cap: map<(K, K), int>) {
    && cap.Keys == cap0.Keys
    && forall x, y :: (x, y) in cap && (y, x) in cap ==> cap[(x, y)] + cap[(y, x)] == cap0[(x, y)] + cap0[(y, x)]
  }

  lemma NextHead<K(!new)>(p: seq<K>, v: K)
    requires NoDup(p) && |p| >= 2
    ensures !Next(p, v, p[0])
    ensures Next(p, p[0], v) <==> v == p[1]
  {
    forall i | 1 <= i < |p| ensures p[i] != p[0] {}
    assert p[0] == p[0] && p[1] == p[1];
  }

  /** A walk that repeats no node never steps from x to y and from y to x. */
  lemma NoTurn<K(!new)>(p: seq<K>, x: K, y: K)
    requires NoDup(p)
    ensures !(Next(p, x, y) && Next(p, y, x))
  {
    if Next(p, x, y) {
      var i :| 0 <= i < |p| - 1 && p[i] == x && p[i + 1] == y;
      forall j | 0 <= j < |p| - 1 ensures !(p[j] == y && p[j + 1] == x) {}
    }
  }

  /** A round lowers the capacity out of the source by exactly f. */
  lemma OutAfter<K(!new)>(cap: map<(K, K), int>, rows: map<K, seq<K>>, source: K, sink: K, p: seq<K>, f: int, cap': map<(K, K), int>)
    requires Net(cap, rows) && Round(cap, source, sink, p, f, cap') && f > 0
    ensures Out(cap', rows, source) == Out(cap, rows, source) - f
  {
    var vs := Row(rows, source);
    assert (p[0], p[1]) in cap && f <= cap[(p[0], p[1])];
    assert p[1] in vs;
    NextHead(p, p[1]);
    AugmentedAt(cap, p, f, source, p[1]);
    forall k | 0 <= k < |vs| && vs[k] != p[1] && (source, vs[k]) in cap
      ensures cap'[(source, vs[k])] == cap[(source, vs[k])]
    {
      NextHead(p, vs[k]);
      AugmentedAt(cap, p, f, source, vs[k]);
    }
    RowSumDrop(cap, cap', source, vs, p[1], f);
  }

  /** A round keeps the table well formed and not negative, and never
      changes the capacity of a pair counted both ways. */
  lemma RoundKeeps<K(!new)>(cap: map<(K, K), int>, rows: map<K, seq<K>>, source: K, sink: K, p: seq<K>, f: int, cap': map<(K, K), int>)
    requires Net(cap, rows) && Round(cap, source, sink, p, f, cap') && f > 0
    ensures Net(cap', rows) && (Capacities(cap) ==> Capacities(cap')) && Conserved(cap, cap')
  {
    forall q | q in cap' && Capacities(cap) ensures cap'[q] >= 0 {
      var (x, y) := q;
      AugmentedAt(cap, p, f, x, y);
      NoTurn(p, x, y);
      if Next(p, x, y) {
        var i :| 0 <= i < |p| - 1 && p[i] == x && p[i + 1] == y;
        assert f <= cap[(p[i], p[i + 1])];
      }
    }
    forall x, y | (x, y) in cap' && (y, x) in cap'
      ensures cap'[(x, y)] + cap'[(y, x)] == cap[(x, y)] + cap[(y, x)]
    {
      AugmentedPairs(cap, p, f, x, y);
    }
  }

  /** Σ flows. */
  function Total(flows: seq<int>): int {
    if |flows| == 0 then 0 else Total(flows[..|flows| - 1]) + flows[|flows| - 1]
  }

  /** A sum of positive flows is positive unless there are none. */
  lemma {:induction false} TotalPositive(flows: seq<int>)
    requires forall k :: 0 <= k < |flows| ==> flows[k] > 0
    ensures Total(flows) >= 0
    ensures Total(flows) == 0 <==> |flows| == 0
  {
    if |flows| > 0 {
      var init := flows[..|flows| - 1];
      assert forall k :: 0 <= k < |init| ==> init[k] == flows[k];
      TotalPositive(init);
    }
  }

  /** tables[k] is the table before round k, and round k pushed flows[k]
      along paths[k]. */
  ghost predicate History<K(!new)>(cap0: map<(K, K), int>, source: K, sink: K, cap: map<(K, K), int>,
                                   paths: seq<seq<K>>, flows: seq<int>, tables: seq<map<(K, K), int>>)
  {
    && |tables| == |paths| + 1 && |flows| == |paths| && tables[0] == cap0 && tables[|paths|] == cap
    && (forall k :: 0 <= k < |paths| ==> Round(tables[k], source, sink, paths[k], flows[k], tables[k + 1]))
    && (forall k :: 0 <= k < |flows| ==> flows[k] > 0)
  }

  /** maxFlow is the sum of the bottlenecks, and the capacity the source lost. */
  ghost predicate Tally<K(!new)>(cap0: map<(K, K), int>, rows: map<K, seq<K>>, source: K,
                                 maxFlow: int, cap: map<(K, K), int>, flows: seq<int>)
  {
    maxFlow == Total(flows) && maxFlow == Out(cap0, rows, source) - Out(cap, rows, source)
  }

  /** The state of `edmondsKarp` after some rounds. */
  ghost predicate Run<K(!new)>(cap0: map<(K, K), int>, rows: map<K, seq<K>>, source: K, sink: K,
                               maxFlow: int, cap: map<(K, K), int>, paths: seq<seq<K>>, flows: seq<int>,
                               tables: seq<map<(K, K), int>>)
  {
    && Net(cap, rows) && (Capacities(cap0) ==> Capacities(cap)) && Conserved(cap0, cap)
    && History(cap0, source, sink, cap, paths, flows, tables)
    && Tally(cap0, rows, source, maxFlow, cap, flows)
  }

  lemma RunStep<K(!new)>(cap0: map<(K, K), int>, rows: map<K, seq<K>>, source: K, sink: K,
                         maxFlow: int, cap: map<(K, K), int>, paths: seq<seq<K>>, flows: seq<int>,
                         tables: seq<map<(K, K), int>>, p: seq<K>, f: int, cap': map<(K, K), int>)
    requires Run(cap0, rows, source, sink, maxFlow, cap, paths, flows, tables)
    requires Round(cap, source, sink, p, f, cap') && f > 0
    ensures Run(cap0, rows, source, sink, maxFlow + f, cap', paths + [p], flows + [f], tables + [cap'])
  {
    RoundKeeps(cap, rows, source, sink, p, f, cap');
    ConservedTrans(cap0, cap, cap');
    OutAfter(cap, rows, source, sink, p, f, cap');
    assert (flows + [f])[..|flows|] == flows;
    HistorySnoc(cap0, source, sink, cap, paths, flows, tables, p, f, cap');
  }

  /** Some flow was pushed exactly when some round ran. */
  lemma RunTotal<K(!new)>(cap0: map<(K, K), int>, rows: map<K, seq<K>>, source: K, sink: K,
                          maxFlow: int, cap: map<(K, K), int>, paths: seq<seq<K>>, flows: seq<int>,
                          tables: seq<map<(K, K), int>>)
    requires Run(cap0, rows, source, sink, maxFlow, cap, paths, flows, tables)
    ensures maxFlow == 0 <==> paths == []
  {
    TotalPositive(flows);
  }

  lemma ConservedTrans<K(!new)>(cap0: map<(K, K), int>, cap: map<(K, K), int>, cap': map<(K, K), int>)
    requires Conserved(cap0, cap) && Conserved(cap, cap')
    ensures Conserved(cap0, cap')
  {
  }

  lemma HistorySnoc<K(!new)>(cap0: map<(K, K), int>, source: K, sink: K, cap: map<(K, K), int>,
                             paths: seq<seq<K>>, flows: seq<int>, tables: seq<map<(K, K), int>>,
                             p: seq<K>, f: int, cap': map<(K, K), int>)
    requires History(cap0, source, sink, cap, paths, flows, tables)
    requires Round(cap, source, sink, p, f, cap') && f > 0
    ensures History(cap0, source, sink, cap', paths + [p], flows + [f], tables + [cap'])
  {
    var t := tables + [cap'];
    forall k | 0 <= k < |paths| + 1
      ensures Round(t[k], source, sink, (paths + [p])[k], (flows + [f])[k], t[k + 1])
    {
      if k < |paths| {
        assert t[k] == tables[k] && t[k + 1] == tables[k + 1];
      }
    }
  }

  /** What a call of `bfs` reports about the table: an augmenting walk
      from source to sink that repeats no node, or null when there is no
      augmenting walk at all. */
  ghost predicate Searched<K(!new)>(cap: map<(K, K), int>, source: K, sink: K, path: Option<seq<K>>) {
    if path.Some? then
      && Augmenting(cap, path.value) && NoDup(path.value)
      && path.value[0] == source && path.value[|path.value| - 1] == sink
    else !Connected(cap, source, sink)
  }

  /** The body of the `while` loop: the bottleneck of an augmenting walk
      from source to sink, and the table after pushing it. */
  method Pump<K(==,!new)>(cap: map<(K, K), int>, rows: map<K, seq<K>>, p: seq<K>, ghost source: K, ghost sink: K)
    returns (f: int, cap': map<(K, K), int>)
    requires Net(cap, rows) && Augmenting(cap, p) && NoDup(p) && source != sink
    requires p[0] == source && p[|p| - 1] == sink
    ensures Round(cap, source, sink, p, f, cap') && f > 0
  {
    AugmentingSteps(cap, rows, p);
    var pathFlow := Bottleneck(cap, p);
    f := pathFlow.n;
    cap' := Augment(cap, p, f);
    assert Narrowest(cap, p, f) by {
      forall i | 0 <= i < |p| - 1 ensures f <= cap[(p[i], p[i + 1])] {
        assert pathFlow.AtMost(Fin(cap[(p[i], p[i + 1])]));
      }
    }
  }

  /** `edmondsKarp(graph, source, sink)` on the residual table: rounds of
      breadth-first search and augmentation until no augmenting walk is
      left. The result is the sum of the bottlenecks, which is also the
      residual capacity the source has lost. */
  method EdmondsKarp<K(==,!new)>(cap0: map<(K, K), int>, rows: map<K, seq<K>>, source: K, sink: K)
    returns (maxFlow: int, cap: map<(K, K), int>, paths: seq<seq<K>>, flows: seq<int>, ghost tables: seq<map<(K, K), int>>)
    requires Net(cap0, rows) && source != sink
    ensures Run(cap0, rows, source, sink, maxFlow, cap, paths, flows, tables)
    ensures !Connected(cap, source, sink)
    ensures paths == [] <==> !Connected(cap0, source, sink)
    ensures 0 <= maxFlow <= Out(cap0, rows, source)
    ensures maxFlow == 0 <==> paths == []
  {
    maxFlow, cap, paths, flows, tables := 0, cap0, [], [], [cap0];
    var path := Bfs(cap, rows, source, sink);
    while path.Some?
      invariant Run(cap0, rows, source, sink, maxFlow, cap, paths, flows, tables)
      invariant Searched(cap, source, sink, path)
      decreases Out(cap, rows, source)
    {
      var p := path.value;
      var f, cap' := Pump(cap, rows, p, source, sink);
      RunStep(cap0, rows, source, sink, maxFlow, cap, paths, flows, tables, p, f, cap');
      maxFlow, cap, paths, flows, tables := maxFlow + f, cap', paths + [p], flows + [f], tables + [cap'];
      path := Bfs(cap, rows, source, sink);
    }
    RunTotal(cap0, rows, source, sink, maxFlow, cap, paths, flows, tables);
    if paths == [] {
      assert cap == cap0;
    } else {
      assert Round(cap0, source, sink, paths[0], flows[0], tables[1]);
      assert Augmenting(cap0, paths[0]);
    }
  }

  /** With the source as sink, every augmenting walk that repeats no node
      is the source alone, whose augmentation changes nothing: `bfs`
      reports [source] each time, the bottleneck is Infinity, and the
      loop of `edmondsKarp` never ends. */
  lemma SameEnds<K(!new)>(cap: map<(K, K), int>, s: K)
    ensures Connected(cap, s, s)
    ensures forall p :: Augmenting(cap, p) && NoDup(p) && p[0] == s && p[|p| - 1] == s ==> p == [s]
    ensures forall f :: Augmented(cap, [s], f) == cap
  {
    assert Augmenting(cap, [s]);
    forall p | Augmenting(cap, p) && NoDup(p) && p[0] == s && p[|p| - 1] == s ensures p == [s] {
      assert p[0] == p[|p| - 1];
    }
  }
}
