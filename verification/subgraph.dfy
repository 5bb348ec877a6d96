/**
 * build_subgraph of graph/subgraph.py: a breadth-first search from src that
 * admits every node within `distance` edges of src into a new graph, node 0
 * standing for src and the others numbered in the order they are admitted.
 * Each admitted node is appended to the list of the node it was reached
 * from, so the new graph is a breadth-first tree whose edges point away from
 * node 0, although it is created undirected.
 *
 * Fix applied to the source: graph/subgraph.py:23 loops `while not queue`,
 * which never runs; the model loops while the queue is non-empty. The code
 * as written is modelled at the end of the module.
 */
module Subgraph {
  import opened Graphs
  import opened Traversal

  // ---------------------------------------------------------------------
  // What the result is

  /** v lies exactly l edges from s: some walk has l edges, none fewer. */
  ghost predicate Level(g: Graph, s: nat, v: nat, l: nat) {
    ReachIn(g, s, v, l) && (l > 0 ==> !ReachIn(g, s, v, l - 1))
  }

  /** t is a tree whose edges point away from node 0: every list holds later
      nodes in ascending order, and every other node k occurs in the list of
      exactly one node, up[k], which comes before it. */
  ghost predicate DownTree(t: Graph, up: seq<nat>) {
    && |t.adj| == t.order == |up| && t.order >= 1
    && (forall p, j :: 0 <= p < t.order && 0 <= j < |t.adj[p]| ==>
          p < t.adj[p][j] < t.order && up[t.adj[p][j]] == p)
    && (forall p, i, j :: 0 <= p < t.order && 0 <= i < j < |t.adj[p]| ==> t.adj[p][i] < t.adj[p][j])
    && (forall k :: 1 <= k < t.order ==> up[k] < k && k in t.adj[up[k]])
  }

  /** Node k of t stands for node orig[k] of g, which lies lvs[k] <= D edges
      from s: s is node 0, the nodes come in order of distance, every node
      within D edges of s is among them, and each tree edge is an edge of g
      one level further from s. */
  ghost predicate Embeds(g: Graph, s: nat, D: nat, t: Graph, up: seq<nat>, orig: seq<nat>, lvs: seq<nat>) {
    && |orig| == t.order && |lvs| == t.order && |up| == t.order && t.order >= 1
    && orig[0] == s && lvs[0] == 0
    && (forall k :: 0 <= k < |orig| ==> orig[k] < g.order && lvs[k] <= D && Level(g, s, orig[k], lvs[k]))
    && (forall i, j :: 0 <= i < j < |orig| ==> orig[i] != orig[j] && lvs[i] <= lvs[j])
    && (forall v :: 0 <= v < g.order && ReachIn(g, s, v, D) ==> v in orig)
    && (forall k :: 1 <= k < |orig| ==> up[k] < |orig| && Edge(g, orig[up[k]], orig[k]) && lvs[k] == lvs[up[k]] + 1)
  }

  /** The node a possibly negative src names, as Python subscripts it. */
  function Wrap(n: nat, src: int): (s: int)
    ensures 0 <= src + n && src < n ==> 0 <= s < n && (s == src || s == src + n)
  {
    if src < 0 then src + n else src
  }

  /** The radius: a negative distance admits nothing beyond src. */
  function Radius(distance: int): nat {
    if distance < 0 then 0 else distance
  }

  // ---------------------------------------------------------------------
  // The search state

  /** The source's dist and index_map agree with the ghost search tree:
      dist is -1 exactly on unseen nodes and the level elsewhere, and
      index_map and orig are inverse numberings of the seen nodes. */
  ghost predicate Numbered(g: Graph, dist: seq<int>, index: seq<int>, f: seq<Father>, lv: seq<nat>, orig: seq<nat>)
    requires Valid(g)
  {
    && |dist| == g.order && |index| == g.order && |f| == g.order && |lv| == g.order
    && (forall v :: 0 <= v < g.order ==> (dist[v] == -1 <==> f[v].Unseen?))
    && (forall v :: 0 <= v < g.order && dist[v] != -1 ==>
          dist[v] == lv[v] && 0 <= index[v] < |orig| && orig[index[v]] == v)
    && (forall k :: 0 <= k < |orig| ==> orig[k] < g.order && dist[orig[k]] != -1 && index[orig[k]] == k)
  }

  /** The subgraph built so far is a down tree over the admitted nodes
      whose edges are the search tree's. */
  ghost predicate Shaped(g: Graph, s: nat, sub: seq<seq<nat>>, f: seq<Father>, up: seq<nat>, orig: seq<nat>)
    requires Valid(g) && |f| == g.order
  {
    && |sub| == |orig| && DownTree(Graph(|sub|, false, sub), up) && orig[0] == s
    && (forall k :: 0 <= k < |orig| ==> orig[k] < g.order)
    && (forall k :: 1 <= k < |sub| ==> up[k] < k && f[orig[k]] == From(orig[up[k]]))
  }

  /** The admitted nodes, in order, are reached in their level's number of
      edges, levels never decrease and never exceed d + 1 or the radius. */
  ghost predicate Admitted(g: Graph, s: nat, D: nat, lv: seq<nat>, orig: seq<nat>, d: nat)
    requires forall k :: 0 <= k < |orig| ==> orig[k] < |lv|
  {
    && (forall k :: 0 <= k < |orig| ==> lv[orig[k]] <= D && lv[orig[k]] <= d + 1 && ReachIn(g, s, orig[k], lv[orig[k]]))
    && (forall i, j :: 0 <= i < j < |orig| ==> lv[orig[i]] <= lv[orig[j]])
  }

  /** The whole state between two pops. */
  ghost predicate Inv(g: Graph, s: nat, D: nat, dist: seq<int>, index: seq<int>, sub: seq<seq<nat>>, q: seq<nat>,
                      f: seq<Father>, lv: seq<nat>, orig: seq<nat>, up: seq<nat>, d: nat)
    requires Valid(g)
  {
    && Tree(g, s, f, lv) && Layered(f, lv, q, d) && Complete(g, s, f, d) && d <= D
    && Distinct(q)
    && Numbered(g, dist, index, f, lv, orig)
    && Shaped(g, s, sub, f, up, orig)
    && Admitted(g, s, D, lv, orig, d)
  }

  /** Seen nodes that left the queue, other than busy, have all their
      successors seen when they lie below the radius. */
  ghost predicate ExpandedBelow(g: Graph, f: seq<Father>, lv: seq<nat>, q: seq<nat>, busy: int, D: nat)
    requires Valid(g) && |f| == g.order && |lv| == g.order
  {
    forall v, i :: 0 <= v < |f| && !f[v].Unseen? && v !in q && v != busy && lv[v] < D && 0 <= i < |g.adj[v]| ==>
      !f[g.adj[v][i]].Unseen?
  }

  /** Popping the first node of the next level: every node within d+1
      edges is now seen, as its predecessor within d edges was expanded. */
  lemma NextLayerBelow(g: Graph, s: nat, f: seq<Father>, lv: seq<nat>, q: seq<nat>, d: nat, D: nat)
    requires Valid(g) && Tree(g, s, f, lv) && q != [] && Layered(f, lv, q, d) && lv[q[0]] == d + 1 <= D
    requires Complete(g, s, f, d) && ExpandedBelow(g, f, lv, q, -1, D)
    ensures Layered(f, lv, q[1..], d + 1) && Complete(g, s, f, d + 1)
  {
    forall v | 0 <= v < |f| && ReachIn(g, s, v, d + 1)
      ensures !f[v].Unseen?
    {
      if !ReachIn(g, s, v, d) {
        var w := ReachInLast(g, s, v, d);
        assert w < |f| && !f[w].Unseen?;
        assert lv[w] <= d;
        assert forall i :: 0 <= i < |q| ==> lv[q[i]] >= d + 1;
        assert w !in q;
        var i :| 0 <= i < |g.adj[w]| && g.adj[w][i] == v;
      }
    }
  }

  /** Seeing neigh and enqueueing it keeps the queue in level order and the
      expanded nodes expanded. */
  lemma DiscoverBelow(g: Graph, s: nat, f: seq<Father>, lv: seq<nat>, q: seq<nat>, d: nat, D: nat, node: nat, neigh: nat)
    requires Valid(g) && |f| == g.order == |lv| && Layered(f, lv, q, d)
    requires Complete(g, s, f, d) && ExpandedBelow(g, f, lv, q, node, D)
    requires neigh < |f| && f[neigh].Unseen?
    ensures Layered(f[neigh := From(node)], lv[neigh := d + 1], q + [neigh], d)
    ensures Complete(g, s, f[neigh := From(node)], d)
    ensures ExpandedBelow(g, f[neigh := From(node)], lv[neigh := d + 1], q + [neigh], node, D)
  {
    var f', lv' := f[neigh := From(node)], lv[neigh := d + 1];
    forall i | 0 <= i < |q| ensures lv'[q[i]] == lv[q[i]] && q[i] != neigh {}
  }

  /** Admitting a node keeps the numbering: it takes the next number. */
  lemma NumberedAdmit(g: Graph, dist: seq<int>, index: seq<int>, f: seq<Father>, lv: seq<nat>, orig: seq<nat>,
                      neigh: nat, x: Father, l: nat, dist': seq<int>, index': seq<int>)
    requires Valid(g) && Numbered(g, dist, index, f, lv, orig)
    requires neigh < g.order && dist[neigh] == -1 && !x.Unseen?
    requires dist' == dist[neigh := l] && index' == index[neigh := |orig|]
    ensures Numbered(g, dist', index', f[neigh := x], lv[neigh := l], orig + [neigh])
  {
    var orig' := orig + [neigh];
    forall k | 0 <= k < |orig'|
      ensures orig'[k] < g.order && dist'[orig'[k]] != -1 && index'[orig'[k]] == k
    {
      if k < |orig| {
        assert orig'[k] == orig[k] && orig[k] != neigh;
      }
    }
  }

  /** Admitting neigh below the node numbered p appends the next number to
      p's list, which keeps the tree shape. */
  lemma ShapedAdmit(g: Graph, s: nat, sub: seq<seq<nat>>, f: seq<Father>, up: seq<nat>, orig: seq<nat>,
                    p: nat, neigh: nat, sub': seq<seq<nat>>)
    requires Valid(g) && |f| == g.order && Shaped(g, s, sub, f, up, orig)
    requires p < |sub| && neigh < g.order && f[neigh].Unseen? && neigh !in orig
    requires sub' == (sub + [[]])[p := sub[p] + [|sub|]]
    ensures Shaped(g, s, sub', f[neigh := From(orig[p])], up + [p], orig + [neigh])
  {
    var f', up', orig' := f[neigh := From(orig[p])], up + [p], orig + [neigh];
    TreeGrows(sub, up, p, sub');
    forall k | 1 <= k < |sub'|
      ensures up'[k] < k && f'[orig'[k]] == From(orig'[up'[k]])
    {
      if k < |sub| {
        assert orig'[k] == orig[k] != neigh;
        assert up'[k] == up[k];
      }
    }
  }

  /** Adding node |sub| under p keeps a down tree one. */
  lemma TreeGrows(sub: seq<seq<nat>>, up: seq<nat>, p: nat, sub': seq<seq<nat>>)
    requires DownTree(Graph(|sub|, false, sub), up) && p < |sub|
    requires sub' == (sub + [[]])[p := sub[p] + [|sub|]]
    ensures DownTree(Graph(|sub'|, false, sub'), up + [p])
  {
    var up' := up + [p];
    forall p0, j | 0 <= p0 < |sub'| && 0 <= j < |sub'[p0]|
      ensures p0 < sub'[p0][j] < |sub'| && up'[sub'[p0][j]] == p0
    {
      if p0 != p || j < |sub[p]| {
        assert p0 < |sub| && sub'[p0][j] == sub[p0][j];
      }
    }
    forall p0, i, j | 0 <= p0 < |sub'| && 0 <= i < j < |sub'[p0]|
      ensures sub'[p0][i] < sub'[p0][j]
    {
      if p0 == p && j == |sub[p]| {
        assert sub'[p0][i] == sub[p][i];
      }
    }
    forall k | 1 <= k < |sub'|
      ensures up'[k] < k && k in sub'[up'[k]]
    {
      if k < |sub| {
        assert up'[k] == up[k];
        var j :| 0 <= j < |sub[up[k]]| && sub[up[k]][j] == k;
        assert sub'[up[k]][j] == k;
      } else {
        assert sub'[p][|sub[p]|] == k;
      }
    }
  }

  /** Admitting one more node at level d + 1 keeps the levels in order. */
  lemma AdmittedAdmit(g: Graph, s: nat, D: nat, lv: seq<nat>, orig: seq<nat>, d: nat, node: nat, neigh: nat)
    requires (forall k :: 0 <= k < |orig| ==> orig[k] < |lv|) && Admitted(g, s, D, lv, orig, d)
    requires neigh < |lv| && neigh !in orig && d < D && ReachIn(g, s, node, d) && Edge(g, node, neigh)
    ensures Admitted(g, s, D, lv[neigh := d + 1], orig + [neigh], d)
  {
    var lv', orig' := lv[neigh := d + 1], orig + [neigh];
    ReachInStep(g, s, node, neigh, d);
    forall k | 0 <= k < |orig'|
      ensures lv'[orig'[k]] <= D && lv'[orig'[k]] <= d + 1 && ReachIn(g, s, orig'[k], lv'[orig'[k]])
    {
      if k < |orig| {
        assert orig'[k] == orig[k] != neigh;
      }
    }
    forall i, j | 0 <= i < j < |orig'| ensures lv'[orig'[i]] <= lv'[orig'[j]] {
      if j < |orig| {
        assert orig'[i] == orig[i] != neigh && orig'[j] == orig[j] != neigh;
      } else {
        assert orig'[i] == orig[i] != neigh;
      }
    }
  }

  /** The loop body at :27-39 for a neighbour admitted from node, on the
      search: neigh is seen one level below node and queued, the tree,
      the level order and the expanded nodes stay as they were. */
  lemma AdmitSearch(g: Graph, s: nat, D: nat, q: seq<nat>, f: seq<Father>, lv: seq<nat>, d: nat, node: nat, neigh: nat,
                    q': seq<nat>, f': seq<Father>, lv': seq<nat>)
    requires Valid(g) && Tree(g, s, f, lv) && Layered(f, lv, q, d) && Complete(g, s, f, d) && Distinct(q)
    requires ExpandedBelow(g, f, lv, q, node, D)
    requires node < g.order && !f[node].Unseen? && lv[node] == d && d < D && node !in q
    requires Edge(g, node, neigh) && neigh < g.order && f[neigh].Unseen?
    requires q' == q + [neigh] && f' == f[neigh := From(node)] && lv' == lv[neigh := d + 1]
    ensures Tree(g, s, f', lv') && Layered(f', lv', q', d) && Complete(g, s, f', d) && Distinct(q')
    ensures ExpandedBelow(g, f', lv', q', node, D)
    ensures lv'[node] == d && node !in q' && !f'[neigh].Unseen?
    ensures forall v :: 0 <= v < |f| && !f[v].Unseen? ==> !f'[v].Unseen?
    ensures Pending(f') + |q'| == Pending(f) + |q|
  {
    QueueAppend(f, q, neigh);
    DiscoverTree(g, s, f, lv, d, node, neigh);
    DiscoverBelow(g, s, f, lv, q, d, D, node, neigh);
    PendingDrop(f, neigh, From(node));
  }

  /** The same step on the output: neigh takes the next number, its level
      as distance, and the next slot in the subgraph under node's. */
  lemma AdmitStep(g: Graph, s: nat, D: nat, dist: seq<int>, index: seq<int>, sub: seq<seq<nat>>, q: seq<nat>,
                  f: seq<Father>, lv: seq<nat>, orig: seq<nat>, up: seq<nat>, d: nat, node: nat, neigh: nat,
                  p: nat, l: nat, dist': seq<int>, index': seq<int>, sub': seq<seq<nat>>,
                  f': seq<Father>, lv': seq<nat>, orig': seq<nat>, up': seq<nat>)
    requires Valid(g) && Inv(g, s, D, dist, index, sub, q, f, lv, orig, up, d)
    requires node < g.order && dist[node] != -1 && lv[node] == d && d < D && Edge(g, node, neigh) && dist[neigh] == -1
    requires l == d + 1 && p == index[node]
    requires dist' == dist[neigh := l] && index' == index[neigh := |sub|]
    requires sub' == (sub + [[]])[p := sub[p] + [|sub|]]
    requires f' == f[neigh := From(node)] && lv' == lv[neigh := d + 1] && orig' == orig + [neigh] && up' == up + [p]
    ensures Numbered(g, dist', index', f', lv', orig')
    ensures Shaped(g, s, sub', f', up', orig')
    ensures Admitted(g, s, D, lv', orig', d)
    ensures dist'[node] != -1
  {
    EdgeNodes(g, node, neigh);
    assert neigh !in orig;
    assert orig[p] == node;
    NumberedAdmit(g, dist, index, f, lv, orig, neigh, From(node), l, dist', index');
    ShapedAdmit(g, s, sub, f, up, orig, p, neigh, sub');
    AdmittedAdmit(g, s, D, lv, orig, d, node, neigh);
  }

  /** An unseen node joins a queue of seen nodes without repeating one. */
  lemma QueueAppend(f: seq<Father>, q: seq<nat>, x: nat)
    requires Distinct(q) && (forall i :: 0 <= i < |q| ==> q[i] < |f| && !f[q[i]].Unseen?)
    requires x < |f| && f[x].Unseen?
    ensures Distinct(q + [x])
  {
    var r := q + [x];
    forall i, j | 0 <= i < j < |r| ensures r[i] != r[j] {
      if j == |q| { assert r[i] == q[i]; }
    }
  }

  // ---------------------------------------------------------------------
  // The search

  /** The neighbour loop at graph/subgraph.py:25-39 for the popped node:
      each neighbour not yet seen is admitted when node lies below the
      radius, with the next number, one level further, and appended to
      node's list in the subgraph. */
  method Expand(g: Graph, ghost s: nat, distance: int, dist0: seq<int>, index0: seq<int>, sub0: seq<seq<nat>>, q0: seq<nat>,
                ghost f0: seq<Father>, ghost lv0: seq<nat>, ghost orig0: seq<nat>, ghost up0: seq<nat>, ghost d: nat, node: nat)
    returns (dist: seq<int>, index: seq<int>, sub: seq<seq<nat>>, q: seq<nat>,
             ghost f: seq<Father>, ghost lv: seq<nat>, ghost orig: seq<nat>, ghost up: seq<nat>)
    requires Valid(g) && Inv(g, s, Radius(distance), dist0, index0, sub0, q0, f0, lv0, orig0, up0, d)
    requires ExpandedBelow(g, f0, lv0, q0, node, Radius(distance))
    requires node < g.order && dist0[node] != -1 && lv0[node] == d && node !in q0
    ensures Inv(g, s, Radius(distance), dist, index, sub, q, f, lv, orig, up, d)
    ensures ExpandedBelow(g, f, lv, q, -1, Radius(distance))
    ensures Pending(f) + |q| == Pending(f0) + |q0|
  {
    ghost var D := Radius(distance);
    dist, index, sub, q, f, lv, orig, up := dist0, index0, sub0, q0, f0, lv0, orig0, up0;
    var i := 0;
    while i < |g.adj[node]|
      invariant i <= |g.adj[node]|
      invariant Inv(g, s, D, dist, index, sub, q, f, lv, orig, up, d) && ExpandedBelow(g, f, lv, q, node, D)
      invariant dist[node] != -1 && lv[node] == d && node !in q
      invariant d < D ==> forall j :: 0 <= j < i ==> !f[g.adj[node][j]].Unseen?
      invariant Pending(f) + |q| == Pending(f0) + |q0|
    {
      dist, index, sub, q, f, lv, orig, up := Offer(g, s, distance, dist, index, sub, q, f, lv, orig, up, d, node, i);
      i := i + 1;
    }
  }

  /** One neighbour of the popped node (graph/subgraph.py:26-39): when it is
      unseen and node lies below the radius it is admitted. */
  method Offer(g: Graph, ghost s: nat, distance: int, dist0: seq<int>, index0: seq<int>, sub0: seq<seq<nat>>, q0: seq<nat>,
               ghost f0: seq<Father>, ghost lv0: seq<nat>, ghost orig0: seq<nat>, ghost up0: seq<nat>, ghost d: nat,
               node: nat, i: nat)
    returns (dist: seq<int>, index: seq<int>, sub: seq<seq<nat>>, q: seq<nat>,
             ghost f: seq<Father>, ghost lv: seq<nat>, ghost orig: seq<nat>, ghost up: seq<nat>)
    requires Valid(g) && node < g.order && i < |g.adj[node]|
    requires Inv(g, s, Radius(distance), dist0, index0, sub0, q0, f0, lv0, orig0, up0, d)
    requires ExpandedBelow(g, f0, lv0, q0, node, Radius(distance))
    requires dist0[node] != -1 && lv0[node] == d && node !in q0
    requires d < Radius(distance) ==> forall j :: 0 <= j < i ==> !f0[g.adj[node][j]].Unseen?
    ensures Inv(g, s, Radius(distance), dist, index, sub, q, f, lv, orig, up, d)
    ensures ExpandedBelow(g, f, lv, q, node, Radius(distance))
    ensures dist[node] != -1 && lv[node] == d && node !in q
    ensures d < Radius(distance) ==> forall j :: 0 <= j < i + 1 ==> !f[g.adj[node][j]].Unseen?
    ensures Pending(f) + |q| == Pending(f0) + |q0|
  {
    ghost var D := Radius(distance);
    dist, index, sub, q, f, lv, orig, up := dist0, index0, sub0, q0, f0, lv0, orig0, up0;
    var neigh := g.adj[node][i];
    // Not visited and in reach (graph/subgraph.py:27)
    if dist[neigh] == -1 && dist[node] < distance {
      assert Edge(g, node, neigh);
      var p: nat := index[node];
      var l: nat := dist[node] + 1;
      dist := dist[neigh := l];
      // add_node, then the child joins its parent's list (:31-39)
      index := index[neigh := |sub|];
      sub := (sub + [[]])[p := sub[p] + [|sub|]];
      q := q + [neigh];
      f := f[neigh := From(node)];
      lv := lv[neigh := d + 1];
      orig := orig + [neigh];
      up := up + [p];
      AdmitSearch(g, s, D, q0, f0, lv0, d, node, neigh, q, f, lv);
      AdmitStep(g, s, D, dist0, index0, sub0, q0, f0, lv0, orig0, up0, d, node, neigh, p, l,
                dist, index, sub, f, lv, orig, up);
    }
    SeenKept(g, node, i, d, D, f0, f);
  }

  /** The successors of node seen before a step stay seen, and the i-th is
      seen after it when node lies below the radius. */
  lemma SeenKept(g: Graph, node: nat, i: nat, d: nat, D: nat, a: seq<Father>, b: seq<Father>)
    requires Valid(g) && node < g.order && i < |g.adj[node]| && |a| == |b| == g.order
    requires forall v :: 0 <= v < |a| && !a[v].Unseen? ==> !b[v].Unseen?
    requires d < D ==> forall j :: 0 <= j < i ==> !a[g.adj[node][j]].Unseen?
    requires d < D ==> !b[g.adj[node][i]].Unseen?
    ensures d < D ==> forall j :: 0 <= j < i + 1 ==> !b[g.adj[node][j]].Unseen?
  {
  }

  /** After the search, everything within the radius is seen: by induction
      on k, a node first reached in k + 1 edges hangs off a seen node below
      the radius, which was expanded. */
  lemma {:induction false} CompleteUpTo(g: Graph, s: nat, f: seq<Father>, lv: seq<nat>, D: nat, k: nat)
    requires Valid(g) && Tree(g, s, f, lv) && ExpandedBelow(g, f, lv, [], -1, D) && k <= D
    ensures Complete(g, s, f, k)
  {
    if k == 0 {
      forall v | 0 <= v < |f| && ReachIn(g, s, v, 0) ensures !f[v].Unseen? {
        ReachInZero(g, s, v);
      }
    } else {
      CompleteUpTo(g, s, f, lv, D, k - 1);
      forall v | 0 <= v < |f| && ReachIn(g, s, v, k) ensures !f[v].Unseen? {
        if !ReachIn(g, s, v, k - 1) {
          var w := ReachInLast(g, s, v, k - 1);
          EdgeNodes(g, w, v);
          assert !f[w].Unseen?;
          assert lv[w] <= k - 1;
          var i :| 0 <= i < |g.adj[w]| && g.adj[w][i] == v;
        }
      }
    }
  }

  /** build_subgraph (graph/subgraph.py:5-41), with the fix above. src is
      subscripted as Python does, so -order <= src < 0 names src + order,
      and anything else outside the nodes raises IndexError at :19. */
  method BuildSubgraph(g: Graph, src: int, distance: int)
    returns (r: Result<Graph>, ghost up: seq<nat>, ghost orig: seq<nat>, ghost lvs: seq<nat>)
    requires Valid(g)
    ensures !(0 <= src + g.order && src < g.order) ==> r == Err(IndexOutOfRange)
    ensures 0 <= src + g.order && src < g.order ==>
      && r.Ok? && Valid(r.value) && !r.value.directed
      && DownTree(r.value, up)
      && Embeds(g, Wrap(g.order, src), Radius(distance), r.value, up, orig, lvs)
  {
    if !(0 <= src + g.order && src < g.order) {
      return Err(IndexOutOfRange), [], [], [];
    }
    var s: nat := Wrap(g.order, src);
    ghost var D := Radius(distance);
    // Visit src, node 0 of the new graph (graph/subgraph.py:9-21)
    var dist: seq<int> := seq(g.order, _ => -1)[s := 0];
    var index: seq<int> := seq(g.order, _ => -1)[s := 0];
    var sub: seq<seq<nat>> := [[]];
    var q := [s];
    ghost var f := seq(g.order, _ => Unseen)[s := Start];
    ghost var lv := seq(g.order, _ => 0);
    orig, up := [s], [0];
    ghost var d: nat := 0;
    Started(g, s, D, dist, index, sub, q, f, lv, orig, up);
    while q != []
      invariant Inv(g, s, D, dist, index, sub, q, f, lv, orig, up, d) && ExpandedBelow(g, f, lv, q, -1, D)
      decreases Pending(f) + |q|
    {
      dist, index, sub, q, f, lv, orig, up, d := Round(g, s, distance, dist, index, sub, q, f, lv, orig, up, d);
    }
    CompleteUpTo(g, s, f, lv, D, D);
    lvs := seq(|orig|, k requires 0 <= k < |orig| => lv[orig[k]]);
    r := Ok(Graph(|sub|, false, sub));
    Result(g, s, D, dist, index, sub, f, lv, orig, up, d, lvs, r.value);
  }

  /** One pass of the main loop (graph/subgraph.py:23-39): the head of the
      queue leaves it and its neighbours are offered. */
  method Round(g: Graph, ghost s: nat, distance: int, dist0: seq<int>, index0: seq<int>, sub0: seq<seq<nat>>, q0: seq<nat>,
               ghost f0: seq<Father>, ghost lv0: seq<nat>, ghost orig0: seq<nat>, ghost up0: seq<nat>, ghost d0: nat)
    returns (dist: seq<int>, index: seq<int>, sub: seq<seq<nat>>, q: seq<nat>,
             ghost f: seq<Father>, ghost lv: seq<nat>, ghost orig: seq<nat>, ghost up: seq<nat>, ghost d: nat)
    requires Valid(g) && q0 != [] && Inv(g, s, Radius(distance), dist0, index0, sub0, q0, f0, lv0, orig0, up0, d0)
    requires ExpandedBelow(g, f0, lv0, q0, -1, Radius(distance))
    ensures Inv(g, s, Radius(distance), dist, index, sub, q, f, lv, orig, up, d)
    ensures ExpandedBelow(g, f, lv, q, -1, Radius(distance))
    ensures Pending(f) + |q| < Pending(f0) + |q0|
  {
    ghost var D := Radius(distance);
    var node := q0[0];
    d := d0;
    if lv0[node] == d + 1 {
      NextLayerBelow(g, s, f0, lv0, q0, d, D);
      d := d + 1;
    }
    PopNode(g, s, D, dist0, index0, sub0, q0, f0, lv0, orig0, up0, d);
    dist, index, sub, q, f, lv, orig, up := Expand(g, s, distance, dist0, index0, sub0, q0[1..], f0, lv0, orig0, up0, d, node);
  }

  /** The state right after src is visited. */
  lemma Started(g: Graph, s: nat, D: nat, dist: seq<int>, index: seq<int>, sub: seq<seq<nat>>, q: seq<nat>,
                f: seq<Father>, lv: seq<nat>, orig: seq<nat>, up: seq<nat>)
    requires Valid(g) && s < g.order
    requires dist == seq(g.order, _ => -1)[s := 0] && index == seq(g.order, _ => -1)[s := 0]
    requires sub == [[]] && q == [s] && orig == [s] && up == [0]
    requires f == seq(g.order, _ => Unseen)[s := Start] && lv == seq(g.order, _ => 0)
    ensures Inv(g, s, D, dist, index, sub, q, f, lv, orig, up, 0) && ExpandedBelow(g, f, lv, q, -1, D)
  {
    forall v | 0 <= v < |f| && ReachIn(g, s, v, 0) ensures !f[v].Unseen? {
      ReachInZero(g, s, v);
    }
    ReachInZero(g, s, s);
  }

  /** Popping the head of the queue: it is a seen node of the current
      level, and it leaves the queue. */
  lemma PopNode(g: Graph, s: nat, D: nat, dist: seq<int>, index: seq<int>, sub: seq<seq<nat>>, q: seq<nat>,
                f: seq<Father>, lv: seq<nat>, orig: seq<nat>, up: seq<nat>, d: nat)
    requires Valid(g) && q != [] && Inv(g, s, D, dist, index, sub, q, f, lv, orig, up, d)
    requires ExpandedBelow(g, f, lv, q, -1, D) && lv[q[0]] == d
    ensures Inv(g, s, D, dist, index, sub, q[1..], f, lv, orig, up, d)
    ensures ExpandedBelow(g, f, lv, q[1..], q[0], D)
    ensures q[0] < g.order && dist[q[0]] != -1 && q[0] !in q[1..]
  {
  }

  /** The final state read as the result: the subgraph is a down tree that
      embeds the nodes within the radius. */
  lemma Result(g: Graph, s: nat, D: nat, dist: seq<int>, index: seq<int>, sub: seq<seq<nat>>,
               f: seq<Father>, lv: seq<nat>, orig: seq<nat>, up: seq<nat>, d: nat, lvs: seq<nat>, t: Graph)
    requires Valid(g) && Inv(g, s, D, dist, index, sub, [], f, lv, orig, up, d) && Complete(g, s, f, D)
    requires |lvs| == |orig| && forall k :: 0 <= k < |orig| ==> lvs[k] == lv[orig[k]]
    requires t == Graph(|sub|, false, sub)
    ensures Valid(t) && DownTree(t, up) && Embeds(g, s, D, t, up, orig, lvs)
  {
    assert DownTree(t, up);
    forall k | 0 <= k < |orig| ensures Level(g, s, orig[k], lvs[k]) {
      assert f[orig[k]].Unseen? == false;
    }
    forall i, j | 0 <= i < j < |orig| ensures orig[i] != orig[j] {
      assert index[orig[i]] == i && index[orig[j]] == j;
    }
    forall v | 0 <= v < g.order && ReachIn(g, s, v, D) ensures v in orig {
      assert orig[index[v]] == v;
    }
    forall k | 1 <= k < |orig|
      ensures up[k] < |orig| && Edge(g, orig[up[k]], orig[k]) && lvs[k] == lvs[up[k]] + 1
    {
      assert orig[k] != s by {
        assert index[orig[k]] == k && index[orig[0]] == 0;
      }
      assert Hangs(g, f, lv, orig[k]);
    }
  }

  // ---------------------------------------------------------------------
  // Reading the result

  /** The embedded nodes are exactly the nodes within D edges of s. */
  lemma Within(g: Graph, s: nat, D: nat, t: Graph, up: seq<nat>, orig: seq<nat>, lvs: seq<nat>)
    requires Embeds(g, s, D, t, up, orig, lvs)
    ensures forall v: nat :: v in orig <==> v < g.order && ReachIn(g, s, v, D)
  {
    forall k | 0 <= k < |orig| ensures ReachIn(g, s, orig[k], D) {
      ReachInMono(g, s, orig[k], lvs[k], D);
    }
  }

  /** So the subgraph has one node per node within D edges of s. */
  lemma Size(g: Graph, s: nat, D: nat, t: Graph, up: seq<nat>, orig: seq<nat>, lvs: seq<nat>)
    requires Embeds(g, s, D, t, up, orig, lvs)
    ensures t.order == |set v | 0 <= v < g.order && ReachIn(g, s, v, D)|
  {
    Within(g, s, D, t, up, orig, lvs);
    assert Distinct(orig);
    DistinctSet(orig);
    assert (set v | 0 <= v < g.order && ReachIn(g, s, v, D)) == Elems(orig);
  }

  /** The entries of s as a set. */
  function Elems(s: seq<nat>): set<nat> {
    set x | x in s
  }

  /** A sequence without repetition has as many elements as entries. */
  lemma {:induction false} DistinctSet(s: seq<nat>)
    requires Distinct(s)
    ensures |Elems(s)| == |s|
  {
    if s != [] {
      var n := |s| - 1;
      var r := s[..n];
      assert s == r + [s[n]];
      assert Distinct(r);
      DistinctSet(r);
      assert s[n] !in Elems(r) by {
        forall i | 0 <= i < n ensures r[i] != s[n] { assert s[i] != s[n]; }
      }
      ElemsSnoc(r, s[n]);
    }
  }

  /** Appending x adds x to the entries. */
  lemma ElemsSnoc(r: seq<nat>, x: nat)
    ensures Elems(r + [x]) == Elems(r) + {x}
  {
    var s := r + [x];
    forall y | y in Elems(s) ensures y in Elems(r) || y == x {
      var i :| 0 <= i < |s| && s[i] == y;
      if i < |r| { assert r[i] == y; }
    }
    forall y | y in Elems(r) ensures y in Elems(s) {
      var i :| 0 <= i < |r| && r[i] == y;
      assert s[i] == y;
    }
  }

  /** The result is flagged undirected yet stores each tree edge in its
      parent's list only, so once it has an edge it is not symmetric. The
      model takes this one-way storage as intended: graph/subgraph.py:39
      appends to the parent's list directly instead of calling add_edge,
      and the docstring says nothing of the child's list. A consequence is
      that remove_edge on a tree edge of the result raises ValueError at
      its second removal (Err(MissingReverse) of Graphs.RemoveEdge). */
  lemma OneWay(t: Graph, up: seq<nat>)
    requires Valid(t) && !t.directed && DownTree(t, up) && t.order > 1
    ensures !Symmetric(t)
  {
    assert 1 in t.adj[up[1]] && up[1] == 0;
    assert multiset(t.adj[0])[1] > 0;
    assert 0 !in t.adj[1] by {
      forall j | 0 <= j < |t.adj[1]| ensures t.adj[1][j] != 0 {}
    }
    assert multiset(t.adj[1])[0] == 0;
  }

  // ---------------------------------------------------------------------
  // The source as written

  /** build_subgraph exactly as graph/subgraph.py:5-41 is written: src is
      queued at :21, so `while not queue` (:23) never runs and the new graph
      keeps the single node it was created with at :9. */
  function BuildSubgraphAsWritten(g: Graph, src: int, distance: int): (r: Result<Graph>)
    requires Valid(g)
    ensures !(0 <= src + g.order && src < g.order) <==> r == Err(IndexOutOfRange)
    ensures r.Ok? ==> r.value == NewGraph(1, false) && r.value.order == 1
  {
    if !(0 <= src + g.order && src < g.order) then Err(IndexOutOfRange)
    else Ok(NewGraph(1, false))
  }

  /** Whenever src has an edge to another node and distance is at least 1,
      the subgraph BuildSubgraph promises has at least two nodes, while the
      code as written returns one. */
  lemma SubgraphAsWrittenMisses(g: Graph, s: nat, D: nat, t: Graph, up: seq<nat>, orig: seq<nat>, lvs: seq<nat>, v: nat)
    requires Valid(g) && Embeds(g, s, D, t, up, orig, lvs)
    requires D >= 1 && Edge(g, s, v) && v != s
    ensures t.order >= 2
    ensures BuildSubgraphAsWritten(g, s, D) == Ok(NewGraph(1, false))
  {
    ReachInZero(g, s, s);
    ReachInStep(g, s, s, v, 0);
    ReachInMono(g, s, v, 1, D);
    assert v in orig;
    var k :| 0 <= k < |orig| && orig[k] == v;
    assert k != 0;
  }
}
