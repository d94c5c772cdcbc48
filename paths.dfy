/** The path query of DEXA.get_pathways in entropic/core.py: up to k simple
    paths from a source to a target, fewest hops first (networkx's
    `shortest_simple_paths` with `weight=None`, cut by `islice`). Here the
    paths are enumerated by a depth-first search over all simple paths and
    sorted by hop count; the contract is what the library promises. */
module SimplePaths {
  import opened Outcomes
  import opened Collections

  // ---------------------------------------------------------------------
  // Paths in an undirected graph given by its node order and edge set

  /** `x` and `y` are joined by an edge (edges are unordered pairs). */
  predicate Adjacent<T(==)>(edges: set<set<T>>, x: T, y: T)
  {
    {x, y} in edges
  }

  /** A walk: a non-empty node sequence whose consecutive nodes are adjacent. */
  predicate IsWalk<T(==)>(edges: set<set<T>>, p: seq<T>)
  {
    |p| >= 1 && forall i :: 0 <= i < |p| - 1 ==> Adjacent(edges, p[i], p[i + 1])
  }

  /** A simple path of the graph from `s` to `t`: a walk through nodes of the
      graph that repeats no node, starts at `s` and ends at `t`. */
  predicate IsSimplePath<T(==)>(nodes: seq<T>, edges: set<set<T>>, s: T, t: T, p: seq<T>)
  {
    && IsWalk(edges, p)
    && Distinct(p)
    && p[0] == s && p[|p| - 1] == t
    && forall x :: x in p ==> x in nodes
  }

  // ---------------------------------------------------------------------
  // Depth-first enumeration of every simple path

  /** The graph's nodes not yet on the path. */
  function Unvisited<T(==)>(nodes: seq<T>, p: seq<T>): set<T>
  {
    set x | x in nodes && x !in p
  }

  /** All simple paths to `t` that extend the path `p`: `p` itself when it
      already ends at `t`, otherwise the extensions through each unvisited
      neighbour of its last node, neighbours taken in node order. */
  function Extensions<T(==)>(nodes: seq<T>, edges: set<set<T>>, t: T, p: seq<T>): seq<seq<T>>
    requires |p| >= 1
    decreases Unvisited(nodes, p), 1, 0
  {
    if p[|p| - 1] == t then [p] else Branches(nodes, edges, t, p, 0)
  }

  /** The extensions of `p` through the neighbours among `nodes[i..]`. */
  function Branches<T(==)>(nodes: seq<T>, edges: set<set<T>>, t: T, p: seq<T>, i: nat): seq<seq<T>>
    requires |p| >= 1 && i <= |nodes|
    decreases Unvisited(nodes, p), 0, |nodes| - i
  {
    if i == |nodes| then []
    else
      var n := nodes[i];
      var here := if Adjacent(edges, p[|p| - 1], n) && n !in p
                  then (assert Unvisited(nodes, p + [n]) < Unvisited(nodes, p) by {
                          assert n in Unvisited(nodes, p) && n !in Unvisited(nodes, p + [n]);
                        }
                        Extensions(nodes, edges, t, p + [n]))
                  else [];
      here + Branches(nodes, edges, t, p, i + 1)
  }

  /** Every simple path from `s` to `t`, each once. */
  function AllSimplePaths<T(==)>(nodes: seq<T>, edges: set<set<T>>, s: T, t: T): seq<seq<T>>
  {
    Extensions(nodes, edges, t, [s])
  }

  /** `p` is a prefix of `q`. */
  predicate Extends<T(==)>(q: seq<T>, p: seq<T>)
  {
    |p| <= |q| && q[..|p|] == p
  }

  /** Soundness: every enumerated extension of a simple path `p` (from
      `p[0]`, through graph nodes) is a simple path to `t` that extends `p`. */
  lemma {:induction false} ExtensionsSound<T>(nodes: seq<T>, edges: set<set<T>>, t: T, p: seq<T>)
    requires IsWalk(edges, p) && Distinct(p) && forall x :: x in p ==> x in nodes
    ensures forall q :: q in Extensions(nodes, edges, t, p) ==>
              IsSimplePath(nodes, edges, p[0], t, q) && Extends(q, p)
    decreases Unvisited(nodes, p), 1, 0
  {
    if p[|p| - 1] != t {
      BranchesSound(nodes, edges, t, p, 0);
    }
  }

  lemma {:induction false} BranchesSound<T>(nodes: seq<T>, edges: set<set<T>>, t: T, p: seq<T>, i: nat)
    requires i <= |nodes|
    requires IsWalk(edges, p) && Distinct(p) && forall x :: x in p ==> x in nodes
    ensures forall q :: q in Branches(nodes, edges, t, p, i) ==>
              IsSimplePath(nodes, edges, p[0], t, q) && Extends(q, p)
    decreases Unvisited(nodes, p), 0, |nodes| - i
  {
    if i < |nodes| {
      var n := nodes[i];
      if Adjacent(edges, p[|p| - 1], n) && n !in p {
        var p' := p + [n];
        assert Unvisited(nodes, p') < Unvisited(nodes, p) by {
          assert n in Unvisited(nodes, p) && n !in Unvisited(nodes, p');
        }
        assert IsWalk(edges, p') by {
          forall j | 0 <= j < |p'| - 1
            ensures Adjacent(edges, p'[j], p'[j + 1])
          {
            if j < |p| - 1 { assert p'[j] == p[j] && p'[j + 1] == p[j + 1]; }
          }
        }
        assert forall x :: x in p' ==> x in p || x == n;
        ExtensionsSound(nodes, edges, t, p');
        forall q | q in Extensions(nodes, edges, t, p')
          ensures Extends(q, p)
        {
          assert q[..|p|] == q[..|p'|][..|p|];
        }
      }
      BranchesSound(nodes, edges, t, p, i + 1);
    }
  }

  /** Completeness: every simple path to `t` that extends a path `p` not yet
      at `t` (or equal to it) is enumerated. */
  lemma {:induction false} ExtensionsComplete<T>(nodes: seq<T>, edges: set<set<T>>, t: T, p: seq<T>, q: seq<T>)
    requires |p| >= 1
    requires IsSimplePath(nodes, edges, p[0], t, q) && Extends(q, p)
    ensures q in Extensions(nodes, edges, t, p)
    decreases Unvisited(nodes, p), 1, 0
  {
    assert q[|p| - 1] == p[|p| - 1];
    if p[|p| - 1] == t {
      // q cannot go on past t without repeating it
      assert q[|p| - 1] == q[|q| - 1];
      assert |q| == |p|;
      assert q == q[..|p|];
    } else {
      var n := q[|p|];
      assert n in nodes;
      var i :| 0 <= i < |nodes| && nodes[i] == n;
      assert Adjacent(edges, p[|p| - 1], n);
      assert n !in p by {
        forall j | 0 <= j < |p|
          ensures p[j] != n
        {
          assert q[j] == p[j];
        }
      }
      BranchesComplete(nodes, edges, t, p, q, 0, i);
    }
  }

  lemma {:induction false} BranchesComplete<T>(nodes: seq<T>, edges: set<set<T>>, t: T, p: seq<T>, q: seq<T>,
                                               i: nat, k: nat)
    requires |p| >= 1 && i <= k < |nodes|
    requires IsSimplePath(nodes, edges, p[0], t, q) && Extends(q, p) && |q| > |p|
    requires nodes[k] == q[|p|] && Adjacent(edges, p[|p| - 1], nodes[k]) && nodes[k] !in p
    ensures q in Branches(nodes, edges, t, p, i)
    decreases Unvisited(nodes, p), 0, |nodes| - i
  {
    if i == k {
      var p' := p + [nodes[k]];
      assert Unvisited(nodes, p') < Unvisited(nodes, p) by {
        assert nodes[k] in Unvisited(nodes, p) && nodes[k] !in Unvisited(nodes, p');
      }
      assert q[..|p'|] == p';
      ExtensionsComplete(nodes, edges, t, p', q);
    } else {
      BranchesComplete(nodes, edges, t, p, q, i + 1, k);
    }
  }

  /** No simple path is enumerated twice, when the node order lists each
      node once. */
  lemma {:induction false} ExtensionsDistinct<T>(nodes: seq<T>, edges: set<set<T>>, t: T, p: seq<T>)
    requires |p| >= 1 && Distinct(nodes)
    ensures Distinct(Extensions(nodes, edges, t, p))
    ensures forall q :: q in Extensions(nodes, edges, t, p) ==> Extends(q, p)
    decreases Unvisited(nodes, p), 1, 0
  {
    if p[|p| - 1] != t {
      BranchesDistinct(nodes, edges, t, p, 0);
    }
  }

  lemma {:induction false} BranchesDistinct<T>(nodes: seq<T>, edges: set<set<T>>, t: T, p: seq<T>, i: nat)
    requires |p| >= 1 && i <= |nodes| && Distinct(nodes)
    ensures Distinct(Branches(nodes, edges, t, p, i))
    ensures forall q :: q in Branches(nodes, edges, t, p, i) ==>
              Extends(q, p) && |q| > |p| && q[|p|] in nodes[i..]
    decreases Unvisited(nodes, p), 0, |nodes| - i
  {
    if i < |nodes| {
      var n := nodes[i];
      var rest := Branches(nodes, edges, t, p, i + 1);
      BranchesDistinct(nodes, edges, t, p, i + 1);
      var here: seq<seq<T>> := [];
      if Adjacent(edges, p[|p| - 1], n) && n !in p {
        var p' := p + [n];
        assert Unvisited(nodes, p') < Unvisited(nodes, p) by {
          assert n in Unvisited(nodes, p) && n !in Unvisited(nodes, p');
        }
        ExtensionsDistinct(nodes, edges, t, p');
        here := Extensions(nodes, edges, t, p');
        forall q | q in here
          ensures Extends(q, p) && |q| > |p| && q[|p|] == n
        {
          assert q[..|p|] == q[..|p'|][..|p|];
          assert q[|p|] == q[..|p'|][|p|];
        }
      }
      assert Branches(nodes, edges, t, p, i) == here + rest;
      NextNodeSplit(nodes, i, here, rest, |p|);
      DistinctConcat(here, rest);
    }
  }

  /** Paths whose node at position `k` is `nodes[i]` differ from those whose
      node there comes later in a duplicate-free node order; together their
      node there is `nodes[i]` or a later one. */
  lemma NextNodeSplit<T>(nodes: seq<T>, i: nat, here: seq<seq<T>>, rest: seq<seq<T>>, k: nat)
    requires Distinct(nodes) && i < |nodes|
    requires forall q :: q in here ==> |q| > k && q[k] == nodes[i]
    requires forall q :: q in rest ==> |q| > k && q[k] in nodes[i + 1..]
    ensures forall a, b :: 0 <= a < |here| && 0 <= b < |rest| ==> here[a] != rest[b]
    ensures forall q :: q in here + rest ==> q[k] in nodes[i..]
  {
    forall a, b | 0 <= a < |here| && 0 <= b < |rest|
      ensures here[a] != rest[b]
    {
      assert here[a] in here && rest[b] in rest;
      var j :| 0 <= j < |nodes[i + 1..]| && nodes[i + 1..][j] == rest[b][k];
      assert nodes[i + 1 + j] == rest[b][k];
      assert nodes[i] != nodes[i + 1 + j];
    }
    forall q | q in here + rest
      ensures q[k] in nodes[i..]
    {
      if q in rest {
        var j :| 0 <= j < |nodes[i + 1..]| && nodes[i + 1..][j] == q[k];
        assert nodes[i..][j + 1] == q[k];
      } else {
        assert nodes[i..][0] == nodes[i];
      }
    }
  }

  /** Concatenating two duplicate-free sequences with no common element. */
  lemma DistinctConcat<U>(a: seq<U>, b: seq<U>)
    requires Distinct(a) && Distinct(b)
    requires forall x, y :: 0 <= x < |a| && 0 <= y < |b| ==> a[x] != b[y]
    ensures Distinct(a + b)
  {
    forall i, j | 0 <= i < j < |a + b|
      ensures (a + b)[i] != (a + b)[j]
    {
      if j < |a| {
      } else if i >= |a| {
        assert (a + b)[i] == b[i - |a|] && (a + b)[j] == b[j - |a|];
      } else {
        assert (a + b)[j] == b[j - |a|];
      }
    }
  }

  /** The enumeration lists exactly the simple paths from `s` to `t`, each
      once. */
  lemma AllSimplePathsExact<T>(nodes: seq<T>, edges: set<set<T>>, s: T, t: T)
    requires Distinct(nodes) && s in nodes
    ensures forall q :: q in AllSimplePaths(nodes, edges, s, t) <==> IsSimplePath(nodes, edges, s, t, q)
    ensures Distinct(AllSimplePaths(nodes, edges, s, t))
  {
    ExtensionsSound(nodes, edges, t, [s]);
    ExtensionsDistinct(nodes, edges, t, [s]);
    forall q | IsSimplePath(nodes, edges, s, t, q)
      ensures q in AllSimplePaths(nodes, edges, s, t)
    {
      assert q[..1] == [s];
      ExtensionsComplete(nodes, edges, t, [s], q);
    }
  }

  // ---------------------------------------------------------------------
  // Ordering by hop count

  /** Path lengths never decrease along the sequence. */
  predicate ByHopCount<T(==)>(ps: seq<seq<T>>)
  {
    forall i, j :: 0 <= i < j < |ps| ==> |ps[i]| <= |ps[j]|
  }

  /** Inserts `x` before the first strictly longer path. */
  function Insert<T(==)>(x: seq<T>, ps: seq<seq<T>>): (r: seq<seq<T>>)
    ensures multiset(r) == multiset(ps) + multiset{x}
  {
    if ps == [] then [x]
    else if |x| < |ps[0]| then [x] + ps
    else
      assert ps == [ps[0]] + ps[1..];
      [ps[0]] + Insert(x, ps[1..])
  }

  /** Insertion keeps the paths ordered by hop count. */
  lemma {:induction false} InsertOrdered<T>(x: seq<T>, ps: seq<seq<T>>)
    requires ByHopCount(ps)
    ensures ByHopCount(Insert(x, ps))
  {
    if ps != [] && |x| >= |ps[0]| {
      var tail := Insert(x, ps[1..]);
      InsertOrdered(x, ps[1..]);
      assert forall p :: p in ps[1..] ==> |ps[0]| <= |p| by {
        forall p | p in ps[1..]
          ensures |ps[0]| <= |p|
        {
          var k :| 0 <= k < |ps[1..]| && ps[1..][k] == p;
          assert ps[k + 1] == p;
        }
      }
      InsertLowerBound(x, ps[1..], |ps[0]|);
      var r := [ps[0]] + tail;
      forall i, j | 0 <= i < j < |r|
        ensures |r[i]| <= |r[j]|
      {
        assert r[j] == tail[j - 1] && r[j] in tail;
        if i > 0 { assert r[i] == tail[i - 1]; }
      }
    }
  }

  /** Inserting a path no shorter than `lo` among paths no shorter than `lo`
      leaves none shorter. */
  lemma InsertLowerBound<T>(x: seq<T>, ps: seq<seq<T>>, lo: nat)
    requires lo <= |x| && forall p :: p in ps ==> lo <= |p|
    ensures forall y :: y in Insert(x, ps) ==> lo <= |y|
  {
    forall y | y in Insert(x, ps)
      ensures lo <= |y|
    {
      assert y in multiset(Insert(x, ps));
    }
  }

  /** Insertion sort by hop count. */
  function SortByHopCount<T(==)>(ps: seq<seq<T>>): (r: seq<seq<T>>)
    ensures multiset(r) == multiset(ps)
    ensures ByHopCount(r)
  {
    if ps == [] then []
    else
      assert ps == [ps[0]] + ps[1..];
      var sorted := SortByHopCount(ps[1..]);
      InsertOrdered(ps[0], sorted);
      Insert(ps[0], sorted)
  }

  /** In a duplicate-free sequence each element is counted at most once. */
  lemma {:induction false} CountAtMostOne<U>(b: seq<U>, x: U)
    requires Distinct(b)
    ensures multiset(b)[x] <= 1
  {
    if b != [] {
      assert b == [b[0]] + b[1..];
      CountAtMostOne(b[1..], x);
      if b[0] == x {
        assert x !in b[1..];
      }
    }
  }

  /** A sequence that counts nothing twice is duplicate-free. */
  lemma {:induction false} DistinctFromCounts<U>(a: seq<U>)
    requires forall x :: multiset(a)[x] <= 1
    ensures Distinct(a)
  {
    if a != [] {
      var rest := a[1..];
      assert a == [a[0]] + rest;
      assert forall x :: multiset(rest)[x] <= multiset(a)[x];
      DistinctFromCounts(rest);
      assert multiset(rest)[a[0]] == 0;
      forall i, j | 0 <= i < j < |a|
        ensures a[i] != a[j]
      {
        assert a[j] == rest[j - 1];
        if i > 0 { assert a[i] == rest[i - 1]; }
      }
    }
  }

  /** A rearrangement of a duplicate-free sequence is duplicate-free. */
  lemma DistinctFromMultiset<U>(a: seq<U>, b: seq<U>)
    requires multiset(a) == multiset(b) && Distinct(b)
    ensures Distinct(a)
  {
    forall x
      ensures multiset(a)[x] <= 1
    {
      CountAtMostOne(b, x);
    }
    DistinctFromCounts(a);
  }

  /** A sequence whose entries all equal `x` counts `x` once per entry. */
  lemma {:induction false} CountConstant<U>(a: seq<U>, x: U)
    requires forall i :: 0 <= i < |a| ==> a[i] == x
    ensures multiset(a)[x] == |a|
  {
    if a != [] {
      assert a == [a[0]] + a[1..];
      CountConstant(a[1..], x);
    }
  }

  /** In a sequence ordered by hop count, the entries before position `m`
      are no longer than any entry that is not among them. */
  lemma PrefixOfOrdered<U>(all: seq<seq<U>>, m: nat, q: seq<U>)
    requires ByHopCount(all) && m <= |all| && q in all && q !in all[..m]
    ensures m < |all|
    ensures forall p :: p in all[..m] ==> |p| <= |q|
  {
    var j :| 0 <= j < |all| && all[j] == q;
    forall i | 0 <= i < m
      ensures all[i] != q
    {
      assert all[..m][i] == all[i];
    }
    forall p | p in all[..m]
      ensures |p| <= |q|
    {
      var i :| 0 <= i < m && all[..m][i] == p;
      assert all[i] == p;
    }
  }

  /** A prefix of a duplicate-free sequence ordered by hop count is both. */
  lemma PrefixKeepsOrder<U>(all: seq<seq<U>>, m: nat)
    requires Distinct(all) && ByHopCount(all) && m <= |all|
    ensures Distinct(all[..m]) && ByHopCount(all[..m])
  {
    var r := all[..m];
    forall i, j | 0 <= i < j < |r|
      ensures r[i] != r[j] && |r[i]| <= |r[j]|
    {
      assert r[i] == all[i] && r[j] == all[j];
    }
  }

  // ---------------------------------------------------------------------
  // get_pathways

  /** `sys.maxsize` on a 64-bit CPython: the largest stop `islice` accepts. */
  const MaxSize: int := 0x7fff_ffff_ffff_ffff

  /** `list(islice(shortest_simple_paths(G, source, target), k))`: a
      negative bound, or one above `sys.maxsize`, is rejected by `islice` at
      once; a zero bound never
      starts the search; otherwise a missing source or target and an
      unconnected pair are errors, and the first `k` paths by hop count are
      returned. */
  function KShortestPaths<T(==)>(nodes: seq<T>, edges: set<set<T>>, s: T, t: T, k: int): Result<seq<seq<T>>>
  {
    if k < 0 || k > MaxSize then Err(ValueError)
    else if k == 0 then Ok([])
    else if s !in nodes || t !in nodes then Err(NodeNotFound)
    else
      var all := SortByHopCount(AllSimplePaths(nodes, edges, s, t));
      if all == [] then Err(NoPath)
      else Ok(all[..if k <= |all| then k else |all|])
  }

  /** What get_pathways promises: at most k paths, each a simple path from
      source to target, none twice, in non-decreasing hop count; fewer than
      k only when there are no more; and every simple path left out is at
      least as long as every one returned. */
  lemma KShortestPathsCorrect<T>(nodes: seq<T>, edges: set<set<T>>, s: T, t: T, k: int)
    requires Distinct(nodes)
    requires KShortestPaths(nodes, edges, s, t, k).Ok?
    ensures var r := KShortestPaths(nodes, edges, s, t, k).value;
      && |r| <= k
      && (forall p :: p in r ==> IsSimplePath(nodes, edges, s, t, p))
      && Distinct(r)
      && ByHopCount(r)
      && (forall q :: IsSimplePath(nodes, edges, s, t, q) && q !in r ==>
            |r| == k && forall p :: p in r ==> |p| <= |q|)
  {
    if k > 0 {
      var paths := AllSimplePaths(nodes, edges, s, t);
      var all := SortByHopCount(paths);
      var m := if k <= |all| then k else |all|;
      var r := all[..m];
      assert KShortestPaths(nodes, edges, s, t, k).value == r;
      AllSimplePathsExact(nodes, edges, s, t);
      DistinctFromMultiset(all, paths);
      forall p | p in all
        ensures IsSimplePath(nodes, edges, s, t, p)
      {
        assert p in multiset(all);
      }
      assert forall p :: p in r ==> p in all;
      PrefixKeepsOrder(all, m);
      forall q | IsSimplePath(nodes, edges, s, t, q) && q !in r
        ensures |r| == k && forall p :: p in r ==> |p| <= |q|
      {
        assert q in multiset(paths);
        PrefixOfOrdered(all, m, q);
      }
    }
  }

  /** The error cases: each failure happens exactly when the source code
      raises it. */
  lemma KShortestPathsErrors<T>(nodes: seq<T>, edges: set<set<T>>, s: T, t: T, k: int)
    requires Distinct(nodes)
    ensures KShortestPaths(nodes, edges, s, t, k) == Err(ValueError) <==> k < 0 || k > MaxSize
    ensures KShortestPaths(nodes, edges, s, t, k) == Err(NodeNotFound) <==>
              0 < k <= MaxSize && (s !in nodes || t !in nodes)
    ensures KShortestPaths(nodes, edges, s, t, k) == Err(NoPath) <==>
              0 < k <= MaxSize && s in nodes && t in nodes && forall q :: !IsSimplePath(nodes, edges, s, t, q)
  {
    if 0 < k <= MaxSize && s in nodes && t in nodes {
      var paths := AllSimplePaths(nodes, edges, s, t);
      AllSimplePathsExact(nodes, edges, s, t);
      if paths != [] {
        assert IsSimplePath(nodes, edges, s, t, paths[0]);
        assert paths[0] in multiset(SortByHopCount(paths));
      }
    }
  }

  /** The first path is a shortest one, and a source equal to the target
      gives the one-node path. */
  lemma FirstPathIsShortest<T>(nodes: seq<T>, edges: set<set<T>>, s: T, t: T, k: int)
    requires Distinct(nodes)
    requires KShortestPaths(nodes, edges, s, t, k).Ok? && k > 0
    ensures |KShortestPaths(nodes, edges, s, t, k).value| >= 1
    ensures forall q :: IsSimplePath(nodes, edges, s, t, q) ==>
              |KShortestPaths(nodes, edges, s, t, k).value[0]| <= |q|
    ensures s == t ==> KShortestPaths(nodes, edges, s, t, k).value == [[s]]
  {
    var r := KShortestPaths(nodes, edges, s, t, k).value;
    KShortestPathsCorrect(nodes, edges, s, t, k);
    forall q | IsSimplePath(nodes, edges, s, t, q)
      ensures |r[0]| <= |q|
    {
      if q in r {
        var i :| 0 <= i < |r| && r[i] == q;
        if i > 0 { assert |r[0]| <= |r[i]|; }
      }
    }
    if s == t {
      forall q | IsSimplePath(nodes, edges, s, t, q)
        ensures q == [s]
      {
        assert q[0] == q[|q| - 1];
        assert |q| == 1;
      }
      assert r[0] == [s];
      assert forall i :: 0 <= i < |r| ==> r[i] == [s];
      CountConstant(r, [s]);
      CountAtMostOne(r, [s]);
      assert r == [r[0]];
    }
  }
}
