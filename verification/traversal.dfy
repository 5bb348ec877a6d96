/**
 * bfs and dfs of graph/traversal.py: path search from src to dst.
 *
 * Fixes applied to the source, each the smallest change that gives the
 * behaviour its docstring and comments describe:
 *  - graph/traversal.py:16 loops `while not q`, which never runs; the model
 *    loops while the queue is non-empty.
 *  - graph/traversal.py:19 overwrites a father before the first-discovery
 *    test at :22; the model records the father, tests for dst and enqueues
 *    only on first discovery.
 *  - graph/traversal.py:47, 52 and 63 return True, and the None results of
 *    list.append and list.reverse; the model returns [dst], the extended
 *    list, and the reversed list.
 * The code as written is modelled at the end of the module, next to lemmas
 * on small graphs where it and the corrected search part ways.
 */
module Traversal {
  import opened Graphs

  // ---------------------------------------------------------------------
  // Walks of bounded length

  /** p is a walk from u to v. */
  ghost predicate WalkFrom(g: Graph, p: seq<nat>, u: nat, v: nat) {
    IsWalk(g, p) && p[0] == u && p[|p| - 1] == v
  }

  /** Some walk of at most k edges leads from u to v. */
  ghost predicate ReachIn(g: Graph, u: nat, v: nat, k: nat) {
    exists p :: WalkFrom(g, p, u, v) && |p| <= k + 1
  }

  lemma ReachInZero(g: Graph, u: nat, v: nat)
    ensures ReachIn(g, u, v, 0) <==> u == v
  {
    if u == v {
      assert WalkFrom(g, [u], u, v);
    }
  }

  lemma ReachInStep(g: Graph, u: nat, w: nat, v: nat, k: nat)
    requires ReachIn(g, u, w, k) && Edge(g, w, v)
    ensures ReachIn(g, u, v, k + 1)
  {
    var p :| WalkFrom(g, p, u, w) && |p| <= k + 1;
    WalkAppend(g, p, v);
    assert WalkFrom(g, p + [v], u, v);
  }

  lemma ReachInMono(g: Graph, u: nat, v: nat, k: nat, l: nat)
    requires k <= l && ReachIn(g, u, v, k)
    ensures ReachIn(g, u, v, l)
  {
    var p :| WalkFrom(g, p, u, v) && |p| <= k + 1;
  }

  /** A node first reached in k+1 edges is one edge past a node reached in k. */
  lemma ReachInLast(g: Graph, u: nat, v: nat, k: nat) returns (w: nat)
    requires ReachIn(g, u, v, k + 1) && !ReachIn(g, u, v, k)
    ensures ReachIn(g, u, w, k) && Edge(g, w, v)
  {
    var p :| WalkFrom(g, p, u, v) && |p| <= k + 2;
    var n := |p| - 1;
    w := p[n - 1];
    assert Hop(g, p, n - 1);
    WalkSlice(g, p, 0, n - 1);
    assert p[..n] == p[0..n];
    assert WalkFrom(g, p[..n], u, w);
  }

  lemma ReachInReach(g: Graph, u: nat, v: nat, k: nat)
    requires ReachIn(g, u, v, k)
    ensures Reach(g, u, v)
  {
    var p :| WalkFrom(g, p, u, v) && |p| <= k + 1;
  }

  lemma ReachReachIn(g: Graph, u: nat, v: nat) returns (k: nat)
    requires Reach(g, u, v)
    ensures ReachIn(g, u, v, k)
  {
    var p :| IsWalk(g, p) && p[0] == u && p[|p| - 1] == v;
    k := |p| - 1;
    assert WalkFrom(g, p, u, v);
  }

  /** path runs against the edges: each entry is a successor of the next. */
  ghost predicate BackWalk(g: Graph, path: seq<nat>) {
    forall k: nat {:trigger BackHop(g, path, k)} :: k < |path| - 1 ==> BackHop(g, path, k)
  }

  /** Entry k of path is a successor of entry k + 1. */
  ghost predicate BackHop(g: Graph, path: seq<nat>, k: nat) {
    k + 1 < |path| && Edge(g, path[k + 1], path[k])
  }

  /** A backward path grows at its far end by a predecessor of that end. */
  lemma BackAppend(g: Graph, path: seq<nat>, v: nat)
    requires BackWalk(g, path) && (path != [] ==> Edge(g, v, path[|path| - 1]))
    ensures BackWalk(g, path + [v])
  {
    var r := path + [v];
    forall k: nat | k < |r| - 1
      ensures BackHop(g, r, k)
    {
      if k + 1 < |path| {
        assert BackHop(g, path, k);
      }
    }
  }

  /** The list reversed, as list.reverse leaves it. */
  function Reverse(s: seq<nat>): (r: seq<nat>)
    ensures |r| == |s| && forall i :: 0 <= i < |s| ==> r[i] == s[|s| - 1 - i]
  {
    if s == [] then [] else Reverse(s[1..]) + [s[0]]
  }

  // ---------------------------------------------------------------------
  // Breadth-first search

  /** An entry of the source's fathers list: None, -1 for src, or a node. */
  datatype Father = Unseen | Start | From(node: nat)

  /** Which nodes have a father entry. */
  function Seen(f: seq<Father>): (m: seq<bool>)
    ensures |m| == |f| && forall v :: 0 <= v < |f| ==> m[v] == !f[v].Unseen?
  {
    seq(|f|, v requires 0 <= v < |f| => !f[v].Unseen?)
  }

  /** Number of nodes without a father entry: what the search decreases. */
  function Pending(f: seq<Father>): nat {
    if f == [] then 0 else Pending(f[..|f| - 1]) + (if f[|f| - 1].Unseen? then 1 else 0)
  }

  /** Giving an unseen node a father leaves one node fewer pending. */
  lemma {:induction false} PendingDrop(f: seq<Father>, v: nat, x: Father)
    requires v < |f| && f[v].Unseen? && !x.Unseen?
    ensures Pending(f[v := x]) + 1 == Pending(f)
    decreases |f|
  {
    var n := |f| - 1;
    if v < n {
      assert f[v := x][..n] == f[..n][v := x];
      PendingDrop(f[..n], v, x);
    } else {
      assert f[v := x][..n] == f[..n];
    }
  }

  /** v's father is a seen node one level up with an edge to v. */
  ghost predicate Hangs(g: Graph, f: seq<Father>, lv: seq<nat>, v: nat)
    requires v < |f| == |lv|
  {
    && f[v].From? && f[v].node < |f| && !f[f[v].node].Unseen?
    && Edge(g, f[v].node, v) && lv[v] == lv[f[v].node] + 1
  }

  /** The fathers form a search tree rooted at src: each other seen node
      hangs by an edge under a seen node one level up, and no walk from src
      reaches a seen node in fewer edges than its level. */
  ghost predicate Tree(g: Graph, src: nat, f: seq<Father>, lv: seq<nat>)
    requires Valid(g)
  {
    && |f| == g.order && |lv| == g.order && src < g.order
    && f[src] == Start && lv[src] == 0
    && (forall v {:trigger Hangs(g, f, lv, v)} :: 0 <= v < |f| && v != src && !f[v].Unseen? ==> Hangs(g, f, lv, v))
    && (forall v :: 0 <= v < |f| && !f[v].Unseen? && lv[v] > 0 ==> !ReachIn(g, src, v, lv[v] - 1))
  }

  /** The queue holds seen nodes of level d then d+1, in level order. */
  ghost predicate Layered(f: seq<Father>, lv: seq<nat>, q: seq<nat>, d: nat)
    requires |f| == |lv|
  {
    && (forall i :: 0 <= i < |q| ==> q[i] < |f| && !f[q[i]].Unseen? && d <= lv[q[i]] <= d + 1)
    && (forall i, j :: 0 <= i < j < |q| ==> lv[q[i]] <= lv[q[j]])
  }

  /** Everything within d edges of src is seen. */
  ghost predicate Complete(g: Graph, src: nat, f: seq<Father>, d: nat) {
    forall v :: 0 <= v < |f| && ReachIn(g, src, v, d) ==> !f[v].Unseen?
  }

  /** Seen nodes that left the queue, other than the one being expanded,
      have all their successors seen. */
  ghost predicate Expanded(g: Graph, f: seq<Father>, q: seq<nat>, busy: int)
    requires Valid(g) && |f| == g.order
  {
    forall v, i :: 0 <= v < |f| && !f[v].Unseen? && v !in q && v != busy && 0 <= i < |g.adj[v]| ==>
      !f[g.adj[v][i]].Unseen?
  }

  /** Popping the first node of the next level: every node within d+1
      edges is now seen, as its predecessor within d edges was expanded. */
  lemma NextLayer(g: Graph, src: nat, f: seq<Father>, lv: seq<nat>, q: seq<nat>, d: nat)
    requires Valid(g) && Tree(g, src, f, lv) && q != [] && Layered(f, lv, q, d) && lv[q[0]] == d + 1
    requires Complete(g, src, f, d) && Expanded(g, f, q, -1)
    ensures Layered(f, lv, q[1..], d + 1) && Complete(g, src, f, d + 1)
  {
    forall v | 0 <= v < |f| && ReachIn(g, src, v, d + 1)
      ensures !f[v].Unseen?
    {
      if !ReachIn(g, src, v, d) {
        var w := ReachInLast(g, src, v, d);
        assert w < |f| && !f[w].Unseen?;
        assert lv[w] <= d;
        assert forall i :: 0 <= i < |q| ==> lv[q[i]] >= d + 1;
        assert w !in q;
        var i :| 0 <= i < |g.adj[w]| && g.adj[w][i] == v;
      }
    }
  }

  /** Seeing neigh from node gives neigh the level below node's: the tree
      stays a shortest-walk tree, as neigh lay beyond d edges. */
  lemma DiscoverTree(g: Graph, src: nat, f: seq<Father>, lv: seq<nat>, d: nat, node: nat, neigh: nat)
    requires Valid(g) && Tree(g, src, f, lv)
    requires node < |f| && !f[node].Unseen? && lv[node] == d && Edge(g, node, neigh)
    requires Complete(g, src, f, d) && neigh < |f| && f[neigh].Unseen?
    ensures Tree(g, src, f[neigh := From(node)], lv[neigh := d + 1])
  {
    var f', lv' := f[neigh := From(node)], lv[neigh := d + 1];
    forall v | 0 <= v < |f'| && v != src && !f'[v].Unseen?
      ensures Hangs(g, f', lv', v)
    {
      if v != neigh {
        assert Hangs(g, f, lv, v);
        assert f'[v] == f[v] && lv'[v] == lv[v];
      }
    }
    forall v | 0 <= v < |f'| && !f'[v].Unseen? && lv'[v] > 0
      ensures !ReachIn(g, src, v, lv'[v] - 1)
    {
      if v != neigh {
        assert f'[v] == f[v] && lv'[v] == lv[v];
      }
    }
  }

  /** Seeing neigh and enqueueing it keeps the queue in level order and
      everything seen so far still seen. */
  lemma DiscoverQueue(g: Graph, src: nat, f: seq<Father>, lv: seq<nat>, q: seq<nat>, d: nat, node: nat, neigh: nat)
    requires Valid(g) && |f| == g.order == |lv| && Layered(f, lv, q, d)
    requires Complete(g, src, f, d) && Expanded(g, f, q, node)
    requires neigh < |f| && f[neigh].Unseen?
    ensures Layered(f[neigh := From(node)], lv[neigh := d + 1], q + [neigh], d)
    ensures Complete(g, src, f[neigh := From(node)], d)
    ensures Expanded(g, f[neigh := From(node)], q + [neigh], node)
  {
    var f', lv' := f[neigh := From(node)], lv[neigh := d + 1];
    forall i | 0 <= i < |q| ensures lv'[q[i]] == lv[q[i]] && q[i] != neigh {}
  }

  /** The search state between two pops: a shortest-walk tree, a queue in
      level order, everything within d edges seen, and dst not yet seen. */
  ghost predicate Frontier(g: Graph, src: nat, dst: nat, f: seq<Father>, lv: seq<nat>, q: seq<nat>, d: nat)
    requires Valid(g)
  {
    && Tree(g, src, f, lv) && Layered(f, lv, q, d) && Complete(g, src, f, d)
    && (dst < |f| && !f[dst].Unseen? ==> dst == src)
  }

  /** One first discovery inside the neighbour loop, other than dst. */
  lemma DiscoverStep(g: Graph, src: nat, dst: nat, f: seq<Father>, lv: seq<nat>, q: seq<nat>, d: nat, node: nat, i: nat)
    requires Valid(g) && Frontier(g, src, dst, f, lv, q, d) && Expanded(g, f, q, node)
    requires node < |f| && !f[node].Unseen? && lv[node] == d && i < |g.adj[node]|
    requires f[g.adj[node][i]].Unseen? && g.adj[node][i] != dst
    requires forall j :: 0 <= j < i ==> !f[g.adj[node][j]].Unseen?
    ensures var f', lv', q' := f[g.adj[node][i] := From(node)], lv[g.adj[node][i] := d + 1], q + [g.adj[node][i]];
      && Frontier(g, src, dst, f', lv', q', d) && Expanded(g, f', q', node)
      && !f'[node].Unseen? && lv'[node] == d
      && (forall j :: 0 <= j <= i ==> !f'[g.adj[node][j]].Unseen?)
      && Pending(f') + 1 == Pending(f)
  {
    var neigh := g.adj[node][i];
    assert Edge(g, node, neigh);
    DiscoverTree(g, src, f, lv, d, node, neigh);
    DiscoverQueue(g, src, f, lv, q, d, node, neigh);
    PendingDrop(f, neigh, From(node));
  }

  /** The neighbour loop of __bfs_aux (graph/traversal.py:18-23): each
      neighbour seen for the first time gets node as father and is enqueued,
      unless it is dst, which ends the search. */
  method Expand(g: Graph, src: nat, dst: nat, f0: seq<Father>, ghost lv0: seq<nat>, q0: seq<nat>, ghost d: nat, node: nat)
    returns (found: bool, f: seq<Father>, ghost lv: seq<nat>, q: seq<nat>)
    requires Valid(g) && Frontier(g, src, dst, f0, lv0, q0, d) && Expanded(g, f0, q0, node)
    requires node < |f0| && !f0[node].Unseen? && lv0[node] == d
    ensures found ==> Tree(g, src, f, lv) && dst < g.order && dst != src && !f[dst].Unseen?
    ensures !found ==> Frontier(g, src, dst, f, lv, q, d) && Expanded(g, f, q, -1)
    ensures !found ==> Pending(f) + |q| == Pending(f0) + |q0|
  {
    found, f, lv, q := false, f0, lv0, q0;
    var i := 0;
    while i < |g.adj[node]|
      invariant i <= |g.adj[node]|
      invariant Frontier(g, src, dst, f, lv, q, d) && Expanded(g, f, q, node)
      invariant node < |f| && !f[node].Unseen? && lv[node] == d
      invariant forall j :: 0 <= j < i ==> !f[g.adj[node][j]].Unseen?
      invariant Pending(f) + |q| == Pending(f0) + |q0|
    {
      found, f, lv, q := Look(g, src, dst, f, lv, q, d, node, i);
      if found {
        return;
      }
      i := i + 1;
    }
  }

  /** One neighbour of node in Expand: an undiscovered one gets node as its
      father and joins the queue, or ends the search when it is dst. */
  method Look(g: Graph, src: nat, dst: nat, f0: seq<Father>, ghost lv0: seq<nat>, q0: seq<nat>, ghost d: nat, node: nat, i: nat)
    returns (found: bool, f: seq<Father>, ghost lv: seq<nat>, q: seq<nat>)
    requires Valid(g) && Frontier(g, src, dst, f0, lv0, q0, d) && Expanded(g, f0, q0, node)
    requires node < |f0| && !f0[node].Unseen? && lv0[node] == d && i < |g.adj[node]|
    requires forall j :: 0 <= j < i ==> !f0[g.adj[node][j]].Unseen?
    ensures found ==> Tree(g, src, f, lv) && dst < g.order && dst != src && !f[dst].Unseen?
    ensures !found ==> Frontier(g, src, dst, f, lv, q, d) && Expanded(g, f, q, node)
    ensures !found ==> node < |f| && !f[node].Unseen? && lv[node] == d
    ensures !found ==> forall j :: 0 <= j <= i ==> !f[g.adj[node][j]].Unseen?
    ensures !found ==> Pending(f) + |q| == Pending(f0) + |q0|
  {
    found, f, lv, q := false, f0, lv0, q0;
    var neigh := g.adj[node][i];
    if f[neigh] == Unseen {
      if neigh == dst {
        DiscoverTree(g, src, f, lv, d, node, neigh);
        f := f[neigh := From(node)];
        lv := lv[neigh := d + 1];
        return true, f, lv, q;
      }
      DiscoverStep(g, src, dst, f, lv, q, d, node, i);
      f := f[neigh := From(node)];
      lv := lv[neigh := d + 1];
      q := q + [neigh];
    }
  }


  /** __bfs_aux (graph/traversal.py:9-24), with the fixes above. The ghost
      levels lv are the distances from src of the seen nodes. */
  method Search(g: Graph, src: nat, dst: nat) returns (found: bool, f: seq<Father>, ghost lv: seq<nat>)
    requires Valid(g) && src < g.order
    ensures Tree(g, src, f, lv)
    ensures found ==> dst < g.order && dst != src && !f[dst].Unseen?
    ensures !found ==> dst == src || !Reach(g, src, dst)
  {
    // Start with source which has no father (graph/traversal.py:12-14)
    f := seq(g.order, _ => Unseen)[src := Start];
    lv := seq(g.order, _ => 0);
    var q := [src];
    ghost var d: nat := 0;
    forall v | 0 <= v < |f| && ReachIn(g, src, v, 0)
      ensures !f[v].Unseen?
    {
      ReachInZero(g, src, v);
    }
    while q != []
      invariant Frontier(g, src, dst, f, lv, q, d) && Expanded(g, f, q, -1)
      decreases Pending(f) + |q|
    {
      var node := q[0];
      if lv[node] == d + 1 {
        NextLayer(g, src, f, lv, q, d);
        d := d + 1;
      }
      found, f, lv, q := Expand(g, src, dst, f, lv, q[1..], d, node);
      if found {
        return;
      }
    }
    assert Closed(g, Seen(f));
    if dst != src && Reach(g, src, dst) {
      ClosedReach(g, Seen(f), src, dst);
    }
    return false, f, lv;
  }

  /** What Tree says about one seen node: only src has the -1 entry, and
      every other seen node hangs under its father. */
  lemma TreeFather(g: Graph, src: nat, f: seq<Father>, lv: seq<nat>, v: nat)
    requires Valid(g) && Tree(g, src, f, lv) && v < |f| && !f[v].Unseen?
    ensures v == src <==> f[v] == Start
    ensures v != src ==> Hangs(g, f, lv, v)
  {
    if v != src {
      assert Hangs(g, f, lv, v);
    }
  }

  /** A list whose entries, read from the back, follow edges out of a is,
      once a is appended and the list reversed, a walk from a. */
  lemma ReversedWalk(g: Graph, path: seq<nat>, a: nat)
    requires path != [] && Edge(g, a, path[|path| - 1])
    requires BackWalk(g, path)
    ensures WalkFrom(g, Reverse(path + [a]), a, path[0])
  {
    var r := Reverse(path + [a]);
    var n := |path|;
    forall i: nat | i < |r| - 1
      ensures Hop(g, r, i)
    {
      assert r[i] == (path + [a])[n - i] && r[i + 1] == (path + [a])[n - i - 1];
      if i > 0 {
        assert BackHop(g, path, n - i - 1);
        assert r[i] == path[n - i] && r[i + 1] == path[n - i - 1];
      }
    }
  }

  /** The walk back from dst along the fathers (graph/traversal.py:29-31):
      it starts at dst, ends at a successor of src, runs against the edges,
      and has one entry per level of dst, none of them at level 0. */
  method Climb(g: Graph, src: nat, dst: nat, f: seq<Father>, ghost lv: seq<nat>) returns (path: seq<nat>)
    requires Valid(g) && Tree(g, src, f, lv) && dst < g.order && dst != src && !f[dst].Unseen?
    ensures |lv| == |f| == g.order && |path| == lv[dst]
    ensures path != [] && path[0] == dst && Edge(g, src, path[|path| - 1])
    ensures forall k :: 0 <= k < |path| ==> path[k] < |lv| && lv[path[k]] >= 1
    ensures BackWalk(g, path)
  {
    path := [];
    var cur: nat := dst;
    TreeFather(g, src, f, lv, dst);
    while f[cur] != Start
      invariant |lv| == |f| == g.order && dst < g.order
      invariant cur < |f| && !f[cur].Unseen?
      invariant |path| + lv[cur] == lv[dst]
      invariant forall k :: 0 <= k < |path| ==> path[k] < |lv| && lv[path[k]] >= 1
      invariant path == [] ==> cur == dst
      invariant path != [] ==> path[0] == dst && Edge(g, cur, path[|path| - 1])
      invariant BackWalk(g, path)
      decreases lv[cur]
    {
      TreeFather(g, src, f, lv, cur);
      BackAppend(g, path, cur);
      path := path + [cur];
      cur := f[cur].node;
    }
    TreeFather(g, src, f, lv, cur);
  }

  /** bfs (graph/traversal.py:4-36): the path found by the search, read back
      through the fathers from dst and reversed. It leaves src out, so
      [src] + path is a walk to dst, and no walk from src reaches dst in
      fewer edges. The list is empty when dst is src or out of reach.
      fathers[src] raises when src is not a node. */
  method Bfs(g: Graph, src: nat, dst: nat) returns (r: Result<seq<nat>>)
    requires Valid(g)
    ensures src >= g.order <==> r == Err(IndexOutOfRange)
    ensures src < g.order ==> r.Ok? && (r.value == [] <==> dst == src || !Reach(g, src, dst))
    ensures src < g.order && r.Ok? && r.value != [] ==>
      && WalkFrom(g, [src] + r.value, src, dst)
      && src !in r.value
      && !ReachIn(g, src, dst, |r.value| - 1)
  {
    if src >= g.order {
      return Err(IndexOutOfRange);
    }
    var found, f, lv := Search(g, src, dst);
    var path: seq<nat> := [];
    if found {
      path := Climb(g, src, dst, f, lv);
      ReversedWalk(g, path, src);
      assert Reverse(path + [src]) == [src] + Reverse(path);
      assert src !in Reverse(path) by {
        forall k | 0 <= k < |path| ensures Reverse(path)[k] != src {
          assert Reverse(path)[k] == path[|path| - 1 - k];
        }
      }
      path := Reverse(path);
      assert IsWalk(g, [src] + path);
    }
    return Ok(path);
  }

  // ---------------------------------------------------------------------
  // Depth-first search

  /** __dfs_aux (graph/traversal.py:41-54), with the fixes above. It marks
      src and tries each neighbour in list order: dst itself ends the search
      with [dst]; an unmarked one is searched, and a path found there is
      extended by that neighbour. The path runs backwards, from dst to a
      successor of src. When nothing is found, every node it newly marked
      has all successors marked and none of them is dst. */
  method DfsAux(g: Graph, src: nat, dst: nat, marked: seq<bool>) returns (path: seq<nat>, m: seq<bool>)
    requires Valid(g) && |marked| == g.order && src < g.order && !marked[src]
    decreases Unmarked(marked)
    ensures Grows(marked, m) && m[src]
    ensures path != [] ==>
      && path[0] == dst && Edge(g, src, path[|path| - 1])
      && BackWalk(g, path)
    ensures path == [] ==>
      forall v, i :: 0 <= v && Fresh(marked, m, v) && 0 <= i < |g.adj[v]| ==>
        m[g.adj[v][i]] && g.adj[v][i] != dst
  {
    m := marked[src := true];
    var i := 0;
    while i < |g.adj[src]|
      invariant i <= |g.adj[src]|
      invariant Grows(marked, m) && m[src]
      invariant forall j :: 0 <= j < i ==> m[g.adj[src][j]] && g.adj[src][j] != dst
      invariant forall v, j :: 0 <= v && Fresh(marked, m, v) && v != src && 0 <= j < |g.adj[v]| ==>
        m[g.adj[v][j]] && g.adj[v][j] != dst
    {
      var neigh := g.adj[src][i];
      if neigh == dst {
        return [dst], m;
      }
      if !m[neigh] {
        UnmarkedShrinks(marked, m, src);
        var p, m2 := DfsAux(g, neigh, dst, m);
        m := m2;
        if p != [] {
          BackAppend(g, p, neigh);
          return p + [neigh], m;
        }
      }
      i := i + 1;
    }
    return [], m;
  }

  /** A closed mark vector none of whose nodes has an edge into dst: no walk
      from a successor of a marked node reaches dst. */
  lemma ShutOut(g: Graph, m: seq<bool>, dst: nat, u: nat, w: nat)
    requires Valid(g) && |m| == g.order && Closed(g, m)
    requires forall v, i :: 0 <= v < |m| && m[v] && 0 <= i < |g.adj[v]| ==> g.adj[v][i] != dst
    requires u < g.order && m[u] && Edge(g, u, w)
    ensures !Reach(g, w, dst)
  {
    if Reach(g, w, dst) {
      var p :| IsWalk(g, p) && p[0] == w && p[|p| - 1] == dst;
      if |p| > 1 {
        var x := p[|p| - 2];
        assert Hop(g, p, |p| - 2);
        WalkSlice(g, p, 0, |p| - 2);
        assert p[..|p| - 1] == p[0..|p| - 1];
        assert IsWalk(g, p[..|p| - 1]);
        StepReach(g, u, w, x);
        ClosedReach(g, m, u, x);
      }
    }
  }

  /** dfs (graph/traversal.py:38-63): the path found, with src appended and
      the list reversed, is a walk of at least one edge from src to dst; the
      list is empty exactly when no such walk exists. marked[src] raises
      when src is not a node. */
  method Dfs(g: Graph, src: nat, dst: nat) returns (r: Result<seq<nat>>)
    requires Valid(g)
    ensures src >= g.order <==> r == Err(IndexOutOfRange)
    ensures src < g.order ==> r.Ok? && (r.value != [] <==> ReachPlus(g, src, dst))
    ensures src < g.order && r.Ok? && r.value != [] ==> WalkFrom(g, r.value, src, dst) && |r.value| >= 2
  {
    if src >= g.order {
      return Err(IndexOutOfRange);
    }
    var marked := seq(g.order, _ => false);
    var res, m := DfsAux(g, src, dst, marked);
    if res != [] {
      // Add src to path, then reverse it (graph/traversal.py:58-63)
      ReversedWalk(g, res, src);
      res := Reverse(res + [src]);
      assert Hop(g, res, 0);
      WalkSlice(g, res, 1, |res| - 1);
      assert res[1..] == res[1..|res|];
      assert IsWalk(g, res[1..]) && res[|res| - 1] == dst;
      assert WalkFrom(g, res[1..], res[1], dst);
      assert Edge(g, src, res[1]) && Reach(g, res[1], dst);
      return Ok(res);
    }
    assert Closed(g, m);
    if ReachPlus(g, src, dst) {
      var w :| Edge(g, src, w) && Reach(g, w, dst);
      ShutOut(g, m, dst, src, w);
    }
    return Ok([]);
  }

  // ---------------------------------------------------------------------
  // The source as written

  /** A run of code that may never return. */
  datatype Run<T> = Returns(value: T) | Forever

  /** bfs exactly as graph/traversal.py:4-36 is written: fathers[src] at :14
      raises when src is not a node; otherwise src has just been queued, so
      `while not q` (:16) never runs, __bfs_aux reports nothing found, and
      the empty path is returned. */
  function BfsAsWritten(g: Graph, src: nat, dst: nat): (r: Result<seq<nat>>)
    requires Valid(g)
    ensures src >= g.order <==> r == Err(IndexOutOfRange)
    ensures src < g.order ==> r == Ok([])
  {
    if src >= g.order then Err(IndexOutOfRange) else Ok([])
  }

  /** __bfs_aux with the loop test at :16 corrected and the assignment at :19
      as written: every neighbour gets a father before the test at :22,
      which therefore never queues it. Only src's own list is searched, and
      the fathers recorded are those of its entries up to dst. */
  method SearchFatherOverwritten(g: Graph, src: nat, dst: nat) returns (found: bool, f: seq<Father>)
    requires Valid(g) && src < g.order
    ensures |f| == g.order
    ensures found <==> dst in g.adj[src]
    ensures found ==> f[dst] == From(src)
    ensures found ==>
      (f[src] == Start <==> src !in g.adj[src][..IndexOf(g.adj[src], dst) + 1])
  {
    f := seq(g.order, _ => Unseen)[src := Start];
    var q: seq<nat> := [src];
    while q != []
      invariant q == [] || (q == [src] && f == seq(g.order, _ => Unseen)[src := Start])
      invariant |f| == g.order && (q == [] ==> dst !in g.adj[src])
      decreases |q|
    {
      var node := q[0];
      q := q[1..];
      var i := 0;
      while i < |g.adj[node]|
        invariant node == src && i <= |g.adj[src]| && q == [] && |f| == g.order
        invariant forall j :: 0 <= j < i ==> g.adj[src][j] != dst
        invariant forall v :: 0 <= v < g.order ==>
          f[v] == (if v in g.adj[src][..i] then From(src) else if v == src then Start else Unseen)
      {
        var neigh := g.adj[node][i];
        assert g.adj[src][..i + 1] == g.adj[src][..i] + [neigh];
        f := f[neigh := From(node)];
        if neigh == dst {
          assert IndexOf(g.adj[src], dst) == i;
          return true, f;
        }
        if f[neigh].Unseen? {
          q := q + [neigh];
        }
        i := i + 1;
      }
    }
    return false, f;
  }

  /** bfs with only the loop test at :16 corrected. dst is found exactly when
      src lists it; the walk back at :29-31 then goes from dst to src, and
      ends there with the path [dst] unless src's own entry came first in
      its list, which made src its own father and sends the walk back round
      forever. */
  method BfsFatherOverwritten(g: Graph, src: nat, dst: nat) returns (r: Result<Run<seq<nat>>>)
    requires Valid(g)
    ensures src >= g.order <==> r == Err(IndexOutOfRange)
    ensures src < g.order ==> (r == Ok(Returns([])) <==> dst !in g.adj[src])
    ensures r.Ok? && r.value.Returns? && r.value.value != [] ==>
      r.value.value == [dst] && Edge(g, src, dst)
    ensures r == Ok(Forever) <==>
      src < g.order && dst in g.adj[src] && src in g.adj[src][..IndexOf(g.adj[src], dst) + 1]
  {
    if src >= g.order {
      return Err(IndexOutOfRange);
    }
    var found, f := SearchFatherOverwritten(g, src, dst);
    if !found {
      return Ok(Returns([]));
    }
    // fathers[dst] is src; the walk back stops only if fathers[src] is -1
    if f[src] != Start {
      return Ok(Forever);
    }
    return Ok(Returns([dst]));
  }

  /** A path found by DfsAux, extended by src, shows dst reachable from src in
      at least one edge. */
  lemma FoundReach(g: Graph, src: nat, dst: nat, path: seq<nat>)
    requires path != [] && path[0] == dst && Edge(g, src, path[|path| - 1])
    requires BackWalk(g, path)
    ensures ReachPlus(g, src, dst)
  {
    ReversedWalk(g, path, src);
    var res := Reverse(path + [src]);
    assert Hop(g, res, 0);
    WalkSlice(g, res, 1, |res| - 1);
    assert res[1..] == res[1..|res|];
    assert WalkFrom(g, res[1..], res[1], dst);
    assert Edge(g, src, res[1]) && Reach(g, res[1], dst);
  }

  /** dfs exactly as graph/traversal.py:38-63 is written: __dfs_aux returns
      True when it meets dst (:47), and its callers then call append on True
      (:52, :60), raising AttributeError. The search runs as in DfsAux up to
      that point, so the source raises exactly when dst is reachable from src
      in at least one edge, and otherwise returns the empty list. */
  method DfsAsWritten(g: Graph, src: nat, dst: nat) returns (r: Result<seq<nat>>)
    requires Valid(g)
    ensures src >= g.order <==> r == Err(IndexOutOfRange)
    ensures src < g.order ==> (r == Err(NoAttribute) <==> ReachPlus(g, src, dst))
    ensures src < g.order && r.Ok? ==> r.value == []
  {
    if src >= g.order {
      return Err(IndexOutOfRange);
    }
    var marked := seq(g.order, _ => false);
    var res, m := DfsAux(g, src, dst, marked);
    if res != [] {
      FoundReach(g, src, dst, res);
      return Err(NoAttribute);
    }
    assert Closed(g, m);
    if ReachPlus(g, src, dst) {
      var w :| Edge(g, src, w) && Reach(g, w, dst);
      ShutOut(g, m, dst, src, w);
    }
    return Ok([]);
  }

  /** One edge 0 -> 1: the corrected Bfs and Dfs must report a path, while
      bfs as written returns [] and dfs as written raises. */
  lemma OneEdge()
    ensures var g := Graph(2, true, [[1], []]);
      && Valid(g) && Reach(g, 0, 1) && ReachPlus(g, 0, 1)
      && BfsAsWritten(g, 0, 1) == Ok([])
  {
    var g := Graph(2, true, [[1], []]);
    assert Edge(g, 0, 1);
    ReachEdge(g, 0, 1);
    ReachRefl(g, 1);
  }

  /** Two edges 0 -> 1 -> 2: 2 is reachable from 0 but not listed by 0, so
      bfs with only :16 corrected returns [] where Bfs returns [1, 2]. */
  lemma TwoHops()
    ensures var g := Graph(3, true, [[1], [2], []]);
      && Valid(g) && Reach(g, 0, 2) && 2 !in g.adj[0]
  {
    var g := Graph(3, true, [[1], [2], []]);
    assert Edge(g, 0, 1) && Edge(g, 1, 2);
    ReachEdge(g, 1, 2);
    StepReach(g, 0, 1, 2);
  }

  /** A loop on 0 listed before the edge 0 -> 1: bfs with only :16 corrected
      walks back forever, where Bfs returns [1]. */
  lemma LoopFirst()
    ensures var g := Graph(2, true, [[0, 1], []]);
      && Valid(g) && Reach(g, 0, 1) && 1 in g.adj[0]
      && 0 in g.adj[0][..IndexOf(g.adj[0], 1) + 1]
  {
    var g := Graph(2, true, [[0, 1], []]);
    assert Edge(g, 0, 1);
    ReachEdge(g, 0, 1);
    assert IndexOf(g.adj[0], 1) == 1;
  }
}
