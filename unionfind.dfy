/** The disjoint-set forest inside kruskal (tasks/task3/script.js): the `parent`
    and `rank` dictionaries, `find` with path compression and `union` by rank.

    `Root` follows parent links to the top, and `MergedParent`/`MergedRank`
    are union by rank WITHOUT path compression: the reference that the class
    below, which compresses paths, is proved to agree with on every root and
    every rank. */
module UnionFind {
  type Parents<K> = map<K, K>
  type Ranks<K> = map<K, nat>

  /** Every parent is a key, and ranks strictly increase towards a root. */
  ghost predicate Valid<K>(parent: Parents<K>, rank: Ranks<K>) {
    && parent.Keys == rank.Keys
    && parent.Values <= parent.Keys
    && (forall x {:trigger parent[x]} :: x in parent && parent[x] != x ==> rank[x] < rank[parent[x]])
  }

  /** The keys ranked above x: shrinks at each step towards a root. */
  ghost function Above<K>(rank: Ranks<K>, x: K): set<K>
    requires x in rank
  {
    set y | y in rank && rank[y] > rank[x]
  }

  lemma AboveShrinks<K>(rank: Ranks<K>, x: K, y: K)
    requires x in rank && y in rank && rank[x] < rank[y]
    ensures Above(rank, y) < Above(rank, x)
  {
    assert y in Above(rank, x) - Above(rank, y);
  }

  /** The root of x's tree: what `find(x)` returns. */
  ghost function Root<K>(parent: Parents<K>, rank: Ranks<K>, x: K): (r: K)
    requires Valid(parent, rank) && x in parent
    ensures r in parent && parent[r] == r
    ensures rank[x] <= rank[r]
    decreases Above(rank, x)
  {
    if parent[x] == x then x
    else
      AboveShrinks(rank, x, parent[x]);
      Root(parent, rank, parent[x])
  }

  /** The keys on the parent chain from x up to its root, both included. */
  ghost function Chain<K>(parent: Parents<K>, rank: Ranks<K>, x: K): set<K>
    requires Valid(parent, rank) && x in parent
    decreases Above(rank, x)
  {
    if parent[x] == x then {x}
    else
      AboveShrinks(rank, x, parent[x]);
      {x} + Chain(parent, rank, parent[x])
  }

  /** The keys that are their own parent. */
  ghost function Roots<K>(parent: Parents<K>): set<K> {
    set x | x in parent && parent[x] == x
  }

  /** Same keys and the same root for every key: two forests over one rank map
      that describe the same partition and make the same union decisions. */
  ghost predicate SameRoots<K>(p: Parents<K>, q: Parents<K>, rank: Ranks<K>)
    requires Valid(p, rank) && Valid(q, rank)
  {
    && p.Keys == q.Keys
    && forall x {:trigger Root(p, rank, x)} {:trigger Root(q, rank, x)} :: x in p ==> Root(p, rank, x) == Root(q, rank, x)
  }

  lemma SameRootsTransitive<K>(p: Parents<K>, q: Parents<K>, s: Parents<K>, rank: Ranks<K>)
    requires Valid(p, rank) && Valid(q, rank) && Valid(s, rank)
    requires SameRoots(p, q, rank) && SameRoots(q, s, rank)
    ensures SameRoots(p, s, rank)
  {
    forall x | x in p
      ensures Root(p, rank, x) == Root(s, rank, x)
    {
      assert Root(p, rank, x) == Root(q, rank, x);
    }
  }

  lemma RootOfNonRoot<K>(parent: Parents<K>, rank: Ranks<K>, x: K)
    requires Valid(parent, rank) && x in parent && parent[x] != x
    ensures Root(parent, rank, x) == Root(parent, rank, parent[x])
    ensures rank[x] < rank[Root(parent, rank, x)]
  {
  }

  /** A root is its own root, and x's root is the root of every key on x's chain. */
  lemma RootOfRoot<K>(parent: Parents<K>, rank: Ranks<K>, r: K)
    requires Valid(parent, rank) && r in parent && parent[r] == r
    ensures Root(parent, rank, r) == r
  {
  }

  // ------------------------------------------------------- path compression

  /** Pointing x straight at its root keeps the forest valid. */
  lemma PointAtRootValid<K>(parent: Parents<K>, rank: Ranks<K>, x: K)
    requires Valid(parent, rank) && x in parent
    ensures Valid(parent[x := Root(parent, rank, x)], rank)
  {
    var r := Root(parent, rank, x);
    var q := parent[x := r];
    forall y | y in q
      ensures q[y] in q
      ensures q[y] != y ==> rank[y] < rank[q[y]]
    {
      if y == x {
        if parent[x] != x {
          RootOfNonRoot(parent, rank, x);
        }
      } else {
        assert q[y] == parent[y];
      }
    }
  }

  /** ... and changes no key's root. */
  lemma {:induction false} PointAtRootRoots<K>(parent: Parents<K>, rank: Ranks<K>, x: K, y: K)
    requires Valid(parent, rank) && x in parent && y in parent
    requires Valid(parent[x := Root(parent, rank, x)], rank)
    ensures Root(parent[x := Root(parent, rank, x)], rank, y) == Root(parent, rank, y)
    decreases Above(rank, y)
  {
    var q := parent[x := Root(parent, rank, x)];
    var r := Root(parent, rank, x);
    if y == x {
      if r != x {
        assert q[r] == r;
        assert Root(q, rank, r) == r;
      }
    } else if parent[y] != y {
      AboveShrinks(rank, y, parent[y]);
      PointAtRootRoots(parent, rank, x, parent[y]);
    }
  }

  /** The forest left by `find(x)`: every key on x's chain points straight at
      x's root, every other key keeps its parent. */
  ghost function Compressed<K>(parent: Parents<K>, rank: Ranks<K>, x: K): (q: Parents<K>)
    requires Valid(parent, rank) && x in parent
    ensures q.Keys == parent.Keys
  {
    map y | y in parent :: if y in Chain(parent, rank, x) then Root(parent, rank, x) else parent[y]
  }

  /** Compressing from x is compressing from x's parent, then pointing x at the root. */
  lemma CompressStep<K>(parent: Parents<K>, rank: Ranks<K>, x: K)
    requires Valid(parent, rank) && x in parent
    ensures parent[x] == x ==> Compressed(parent, rank, x) == parent
    ensures parent[x] != x ==>
      Compressed(parent, rank, x) == Compressed(parent, rank, parent[x])[x := Root(parent, rank, x)]
  {
    if parent[x] != x {
      AboveShrinks(rank, x, parent[x]);
      RootOfNonRoot(parent, rank, x);
      var c, d := Compressed(parent, rank, x), Compressed(parent, rank, parent[x])[x := Root(parent, rank, x)];
      forall y | y in parent
        ensures c[y] == d[y]
      {
      }
    } else {
      var c := Compressed(parent, rank, x);
      forall y | y in parent
        ensures c[y] == parent[y]
      {
      }
    }
  }

  /** Path compression keeps the forest valid and changes no key's root. */
  lemma {:induction false} CompressedRoots<K>(parent: Parents<K>, rank: Ranks<K>, x: K)
    requires Valid(parent, rank) && x in parent
    ensures Valid(Compressed(parent, rank, x), rank)
    ensures SameRoots(Compressed(parent, rank, x), parent, rank)
    decreases Above(rank, x)
  {
    CompressStep(parent, rank, x);
    if parent[x] != x {
      var px := parent[x];
      AboveShrinks(rank, x, px);
      RootOfNonRoot(parent, rank, x);
      CompressedRoots(parent, rank, px);
      var m := Compressed(parent, rank, px);
      assert Root(m, rank, x) == Root(parent, rank, x);
      PointAtRootValid(m, rank, x);
      var c := m[x := Root(m, rank, x)];
      forall y | y in c
        ensures Root(c, rank, y) == Root(m, rank, y)
      {
        PointAtRootRoots(m, rank, x, y);
      }
      SameRootsTransitive(c, m, parent, rank);
    } else {
      SameRootsReflexive(parent, rank);
    }
  }

  lemma SameRootsReflexive<K>(p: Parents<K>, rank: Ranks<K>)
    requires Valid(p, rank)
    ensures SameRoots(p, p, rank)
  {
  }

  // ------------------------------------------------------------ hanging a root

  /** The rank map after a link step: `bump` raises the winner's rank by one. */
  function Bump<K(==)>(rank: Ranks<K>, winner: K, bump: bool): (r: Ranks<K>)
    requires winner in rank
    ensures r.Keys == rank.Keys
    ensures forall y :: y in rank && y != winner ==> r[y] == rank[y]
    ensures r[winner] == if bump then rank[winner] + 1 else rank[winner]
  {
    if bump then rank[winner := rank[winner] + 1] else rank
  }

  /** union's link step is allowed: two distinct roots, the loser of smaller
      rank, or of equal rank when the winner's rank is bumped. */
  ghost predicate CanHang<K>(parent: Parents<K>, rank: Ranks<K>, loser: K, winner: K, bump: bool) {
    && Valid(parent, rank) && loser in parent && winner in parent
    && parent[loser] == loser && parent[winner] == winner && loser != winner
    && (if bump then rank[loser] == rank[winner] else rank[loser] < rank[winner])
  }

  lemma HangValid<K>(parent: Parents<K>, rank: Ranks<K>, loser: K, winner: K, bump: bool)
    requires CanHang(parent, rank, loser, winner, bump)
    ensures Valid(parent[loser := winner], Bump(rank, winner, bump))
  {
  }

  /** After hanging, the keys whose root was `loser` have root `winner`; every
      other key keeps its root. */
  lemma {:induction false} HangRoots<K>(parent: Parents<K>, rank: Ranks<K>, loser: K, winner: K, bump: bool, y: K)
    requires CanHang(parent, rank, loser, winner, bump) && y in parent
    requires Valid(parent[loser := winner], Bump(rank, winner, bump))
    ensures Root(parent[loser := winner], Bump(rank, winner, bump), y) ==
      if Root(parent, rank, y) == loser then winner else Root(parent, rank, y)
    decreases Above(rank, y)
  {
    var q, rk := parent[loser := winner], Bump(rank, winner, bump);
    assert Root(q, rk, winner) == winner;
    if y != loser && parent[y] != y {
      AboveShrinks(rank, y, parent[y]);
      HangRoots(parent, rank, loser, winner, bump, parent[y]);
    }
  }

  lemma HangRootsAll<K>(parent: Parents<K>, rank: Ranks<K>, loser: K, winner: K, bump: bool)
    requires CanHang(parent, rank, loser, winner, bump)
    ensures Valid(parent[loser := winner], Bump(rank, winner, bump))
    ensures forall y :: y in parent ==>
      Root(parent[loser := winner], Bump(rank, winner, bump), y) ==
        if Root(parent, rank, y) == loser then winner else Root(parent, rank, y)
  {
    HangValid(parent, rank, loser, winner, bump);
    forall y | y in parent
      ensures Root(parent[loser := winner], Bump(rank, winner, bump), y) ==
        if Root(parent, rank, y) == loser then winner else Root(parent, rank, y)
    {
      HangRoots(parent, rank, loser, winner, bump, y);
    }
  }

  /** Hanging the same roots in two forests with the same roots gives two
      forests with the same roots. */
  lemma HangSameRoots<K>(p: Parents<K>, q: Parents<K>, rank: Ranks<K>, loser: K, winner: K, bump: bool)
    requires CanHang(p, rank, loser, winner, bump) && CanHang(q, rank, loser, winner, bump)
    requires SameRoots(p, q, rank)
    ensures Valid(p[loser := winner], Bump(rank, winner, bump))
    ensures Valid(q[loser := winner], Bump(rank, winner, bump))
    ensures SameRoots(p[loser := winner], q[loser := winner], Bump(rank, winner, bump))
  {
    HangValid(p, rank, loser, winner, bump);
    HangValid(q, rank, loser, winner, bump);
    var p2, q2, rk := p[loser := winner], q[loser := winner], Bump(rank, winner, bump);
    forall x | x in p2
      ensures Root(p2, rk, x) == Root(q2, rk, x)
    {
      assert Root(p, rank, x) == Root(q, rank, x);
      HangRoots(p, rank, loser, winner, bump, x);
      HangRoots(q, rank, loser, winner, bump, x);
    }
  }

  lemma HangRootSet<K>(parent: Parents<K>, rank: Ranks<K>, loser: K, winner: K, bump: bool)
    requires CanHang(parent, rank, loser, winner, bump)
    ensures Roots(parent[loser := winner]) == Roots(parent) - {loser}
    ensures |Roots(parent[loser := winner])| == |Roots(parent)| - 1
  {
    assert Roots(parent[loser := winner]) == Roots(parent) - {loser};
  }

  // ------------------------------------------------------ the reference union

  /** The root that survives union(a, b): root2 when it has the larger rank,
      root1 otherwise (ties included). */
  ghost function Winner<K>(parent: Parents<K>, rank: Ranks<K>, a: K, b: K): K
    requires Valid(parent, rank) && a in parent && b in parent
  {
    var r1, r2 := Root(parent, rank, a), Root(parent, rank, b);
    if rank[r1] < rank[r2] then r2 else r1
  }

  ghost function Loser<K>(parent: Parents<K>, rank: Ranks<K>, a: K, b: K): K
    requires Valid(parent, rank) && a in parent && b in parent
  {
    var r1, r2 := Root(parent, rank, a), Root(parent, rank, b);
    if rank[r1] < rank[r2] then r1 else r2
  }

  /** The ranks after union(a, b). */
  ghost function MergedRank<K>(parent: Parents<K>, rank: Ranks<K>, a: K, b: K): Ranks<K>
    requires Valid(parent, rank) && a in parent && b in parent
  {
    var r1, r2 := Root(parent, rank, a), Root(parent, rank, b);
    if r1 == r2 then rank else Bump(rank, Winner(parent, rank, a, b), rank[r1] == rank[r2])
  }

  /** The parents after union(a, b), without path compression. */
  ghost function MergedParent<K>(parent: Parents<K>, rank: Ranks<K>, a: K, b: K): (q: Parents<K>)
    requires Valid(parent, rank) && a in parent && b in parent
    ensures Valid(q, MergedRank(parent, rank, a, b)) && q.Keys == parent.Keys
  {
    var r1, r2 := Root(parent, rank, a), Root(parent, rank, b);
    if r1 == r2 then parent
    else
      HangValid(parent, rank, Loser(parent, rank, a, b), Winner(parent, rank, a, b), rank[r1] == rank[r2]);
      parent[Loser(parent, rank, a, b) := Winner(parent, rank, a, b)]
  }

  /** After union(a, b), a and b share a root, the winner; keys in either old
      tree now have the winner as root, every other key keeps its root. */
  lemma MergeRoots<K>(parent: Parents<K>, rank: Ranks<K>, a: K, b: K)
    requires Valid(parent, rank) && a in parent && b in parent
    ensures var q, rk := MergedParent(parent, rank, a, b), MergedRank(parent, rank, a, b);
      && Root(q, rk, a) == Root(q, rk, b) == Winner(parent, rank, a, b)
      && forall y :: y in parent ==>
           Root(q, rk, y) ==
             if Root(parent, rank, y) == Root(parent, rank, a) || Root(parent, rank, y) == Root(parent, rank, b)
             then Winner(parent, rank, a, b) else Root(parent, rank, y)
  {
    var r1, r2 := Root(parent, rank, a), Root(parent, rank, b);
    var q, rk := MergedParent(parent, rank, a, b), MergedRank(parent, rank, a, b);
    var w, l := Winner(parent, rank, a, b), Loser(parent, rank, a, b);
    if r1 != r2 {
      var bump := rank[r1] == rank[r2];
      HangValid(parent, rank, l, w, bump);
      assert q == parent[l := w] && rk == Bump(rank, w, bump);
      forall y | y in parent
        ensures Root(q, rk, y) == if Root(parent, rank, y) == r1 || Root(parent, rank, y) == r2 then w else Root(parent, rank, y)
      {
        HangRoots(parent, rank, l, w, bump, y);
      }
    }
  }

  /** The rank rule: only when two distinct roots of equal rank merge does a
      rank change, and then the first root's rank rises by exactly one. */
  lemma MergeRank<K>(parent: Parents<K>, rank: Ranks<K>, a: K, b: K)
    requires Valid(parent, rank) && a in parent && b in parent
    ensures MergedRank(parent, rank, a, b) ==
      if Root(parent, rank, a) != Root(parent, rank, b)
         && rank[Root(parent, rank, a)] == rank[Root(parent, rank, b)]
      then rank[Root(parent, rank, a) := rank[Root(parent, rank, a)] + 1]
      else rank
    ensures Root(parent, rank, a) == Root(parent, rank, b) ==> MergedParent(parent, rank, a, b) == parent
  {
  }

  /** Merging two trees removes exactly one root. */
  lemma MergeRootCount<K>(parent: Parents<K>, rank: Ranks<K>, a: K, b: K)
    requires Valid(parent, rank) && a in parent && b in parent
    ensures |Roots(MergedParent(parent, rank, a, b))| ==
      if Root(parent, rank, a) == Root(parent, rank, b) then |Roots(parent)| else |Roots(parent)| - 1
  {
    var r1, r2 := Root(parent, rank, a), Root(parent, rank, b);
    if r1 != r2 {
      HangRootSet(parent, rank, Loser(parent, rank, a, b), Winner(parent, rank, a, b), rank[r1] == rank[r2]);
    }
  }

  /** A forest with the same roots takes the same union step. */
  lemma MergeSameRoots<K>(p: Parents<K>, q: Parents<K>, rank: Ranks<K>, a: K, b: K)
    requires Valid(p, rank) && Valid(q, rank) && a in p && b in p
    requires SameRoots(p, q, rank)
    ensures MergedRank(p, rank, a, b) == MergedRank(q, rank, a, b)
    ensures SameRoots(MergedParent(p, rank, a, b), MergedParent(q, rank, a, b), MergedRank(p, rank, a, b))
  {
    var r1, r2 := Root(p, rank, a), Root(p, rank, b);
    assert r1 == Root(q, rank, a) && r2 == Root(q, rank, b);
    if r1 != r2 {
      HangSameRoots(p, q, rank, Loser(p, rank, a, b), Winner(p, rank, a, b), rank[r1] == rank[r2]);
    }
  }

  /** Forests with the same roots have the same set of roots. */
  lemma SameRootsRoots<K>(p: Parents<K>, q: Parents<K>, rank: Ranks<K>)
    requires Valid(p, rank) && Valid(q, rank) && SameRoots(p, q, rank)
    ensures Roots(p) == Roots(q)
  {
    forall x | x in Roots(p)
      ensures x in Roots(q)
    {
      RootOfRoot(p, rank, x);
      assert Root(q, rank, x) == x;
    }
    forall x | x in Roots(q)
      ensures x in Roots(p)
    {
      RootOfRoot(q, rank, x);
      assert Root(p, rank, x) == x;
    }
  }

  lemma RootsNonEmpty<K>(parent: Parents<K>, rank: Ranks<K>)
    requires Valid(parent, rank) && parent != map[]
    ensures Roots(parent) != {}
  {
    var x :| x in parent;
    assert Root(parent, rank, x) in Roots(parent);
  }

  /** What union(a, b) promises of the forest (np, nr) it leaves behind, starting
      from (p, rank): the merged ranks, a valid forest, the merged roots. */
  ghost predicate UnionDone<K>(p: Parents<K>, rank: Ranks<K>, a: K, b: K, np: Parents<K>, nr: Ranks<K>)
    requires Valid(p, rank) && a in p && b in p
  {
    && np.Keys == p.Keys
    && nr == MergedRank(p, rank, a, b)
    && Valid(np, nr)
    && SameRoots(np, MergedParent(p, rank, a, b), nr)
    && Root(np, nr, a) == Root(np, nr, b)
  }

  /** After find(a) then find(b): a valid forest with the roots of the first,
      in which both roots found are still roots. */
  lemma FindTwice<K>(p0: Parents<K>, p1: Parents<K>, mid: Parents<K>, rank: Ranks<K>, a: K, b: K, root1: K, root2: K)
    requires Valid(p0, rank) && a in p0 && b in p0
    requires p1 == Compressed(p0, rank, a) && root1 == Root(p0, rank, a)
    requires Valid(p1, rank) && mid == Compressed(p1, rank, b) && root2 == Root(p1, rank, b)
    ensures Valid(mid, rank) && SameRoots(mid, p0, rank)
    ensures root1 == Root(mid, rank, a) && root2 == Root(p0, rank, b) && root2 == Root(mid, rank, b)
    ensures root1 in mid && root2 in mid && mid[root1] == root1 && mid[root2] == root2
  {
    CompressedRoots(p0, rank, a);
    CompressedRoots(p1, rank, b);
    SameRootsTransitive(mid, p1, p0, rank);
    assert root2 == Root(p0, rank, b);
    assert root1 == Root(mid, rank, a);
    RootOfRoot(mid, rank, root1);
    RootOfRoot(mid, rank, root2);
  }

  /** union when both keys already share a root: nothing more to do. */
  lemma UnionSame<K>(p0: Parents<K>, mid: Parents<K>, rank: Ranks<K>, a: K, b: K)
    requires Valid(p0, rank) && Valid(mid, rank) && a in p0 && b in p0
    requires SameRoots(mid, p0, rank) && Root(p0, rank, a) == Root(p0, rank, b)
    ensures UnionDone(p0, rank, a, b, mid, rank)
  {
    assert Root(mid, rank, a) == Root(p0, rank, a);
    assert Root(mid, rank, b) == Root(p0, rank, b);
  }

  /** union's link step on a forest with the same roots as p0 does what the
      reference merge of p0 does. */
  lemma UnionLink<K>(p0: Parents<K>, mid: Parents<K>, rank: Ranks<K>, a: K, b: K, loser: K, winner: K, bump: bool)
    requires Valid(p0, rank) && Valid(mid, rank) && a in p0 && b in p0
    requires SameRoots(mid, p0, rank) && Root(p0, rank, a) != Root(p0, rank, b)
    requires loser == Loser(p0, rank, a, b) && winner == Winner(p0, rank, a, b)
    requires bump == (rank[Root(p0, rank, a)] == rank[Root(p0, rank, b)])
    requires mid[loser] == loser && mid[winner] == winner
    ensures UnionDone(p0, rank, a, b, mid[loser := winner], Bump(rank, winner, bump))
  {
    MergeRoots(p0, rank, a, b);
    var merged, rk := MergedParent(p0, rank, a, b), MergedRank(p0, rank, a, b);
    HangSameRoots(mid, p0, rank, loser, winner, bump);
    assert merged == p0[loser := winner];
    assert rk == Bump(rank, winner, bump);
    var np := mid[loser := winner];
    assert Root(np, rk, a) == Root(merged, rk, a);
    assert Root(np, rk, b) == Root(merged, rk, b);
  }

  // ----------------------------------------------------------------- the class

  /** kruskal's two dictionaries, updated in place by find and union. */
  class UnionFind<K(==)> {
    var parent: Parents<K>
    var rank: Ranks<K>

    constructor ()
      ensures parent == map[] && rank == map[]
    {
      parent, rank := map[], map[];
    }

    /** `find(x)`: returns x's root and points every key on the chain it walked
        straight at that root; no root and no rank changes. */
    method Find(x: K) returns (r: K)
      requires Valid(parent, rank) && x in parent
      modifies this
      ensures rank == old(rank)
      ensures parent == Compressed(old(parent), rank, x)
      ensures r == Root(old(parent), rank, x)
      decreases Above(rank, x)
    {
      CompressStep(parent, rank, x);
      if parent[x] != x {
        AboveShrinks(rank, x, parent[x]);
        RootOfNonRoot(parent, rank, x);
        var root := Find(parent[x]);
        parent := parent[x := root];
      }
      r := parent[x];
    }

    /** `union(a, b)`: find both roots; if they differ, hang the root of lower
        rank under the other, the second under the first on a tie, raising the
        first's rank. Agrees with the reference merge on every root and rank. */
    method Union(a: K, b: K)
      requires Valid(parent, rank) && a in parent && b in parent
      modifies this
      ensures UnionDone(old(parent), old(rank), a, b, parent, rank)
    {
      ghost var p0 := parent;
      var root1 := Find(a);
      ghost var p1 := parent;
      CompressedRoots(p0, rank, a);
      var root2 := Find(b);
      FindTwice(p0, p1, parent, rank, a, b, root1, root2);
      if root1 != root2 {
        if rank[root1] > rank[root2] {
          UnionLink(p0, parent, rank, a, b, root2, root1, false);
          parent := parent[root2 := root1];
        } else if rank[root1] < rank[root2] {
          UnionLink(p0, parent, rank, a, b, root1, root2, false);
          parent := parent[root1 := root2];
        } else {
          UnionLink(p0, parent, rank, a, b, root2, root1, true);
          parent := parent[root2 := root1];
          rank := rank[root1 := rank[root1] + 1];
        }
      } else {
        UnionSame(p0, parent, rank, a, b);
      }
    }
  }
}
