/**
 * Strongly connected components of graph/strong_connectivity.py: the
 * reversed graph, Kosaraju's two depth-first passes and Tarjan's single
 * pass. Both algorithms return a map from node to component number,
 * numbered from 1, and the number of components.
 *
 * Two lines of the source cannot run as written and the model follows the
 * evident intent: reverse builds revG but has no return statement (:12), so
 * kosaraju's `self.reverse()` at :42 would yield None; and the loop at :46
 * calls `isempty()`, which collections.deque does not have, where
 * `while suffix_order:` is meant. The code as written is modelled at the
 * end of the module.
 */
module Strong {
  import opened Graphs

  // ---------------------------------------------------------------------
  // The reversed graph

  /** rev holds the edges of g turned around, each as often as in g. */
  ghost predicate Reversal(g: Graph, rev: Graph)
    requires Valid(g)
  {
    && Valid(rev) && rev.order == g.order
    && forall a, b :: 0 <= a < g.order && 0 <= b < g.order ==>
         multiset(rev.adj[a])[b] == multiset(g.adj[b])[a]
  }

  /** How often a occurs in rev's list for b once the lists of the nodes
      below i, and the first k entries of i's list, have been turned around. */
  function Turned(g: Graph, i: nat, k: nat, a: nat, b: nat): nat
    requires Valid(g) && i < g.order && k <= |g.adj[i]| && b < g.order
  {
    if b < i then multiset(g.adj[b])[a] else if b == i then multiset(g.adj[i][..k])[a] else 0
  }

  /** reverse (graph/strong_connectivity.py:5-12): a directed graph on the
      same nodes, built by adding y -> i for every entry y of i's list. */
  method Reverse(g: Graph) returns (rev: Graph)
    requires Valid(g)
    ensures rev.directed && Reversal(g, rev)
  {
    rev := NewGraph(g.order, true);
    var i := 0;
    while i < g.order
      invariant 0 <= i <= g.order && Valid(rev) && rev.order == g.order && rev.directed
      invariant forall a, b {:trigger multiset(rev.adj[a])[b]} :: 0 <= a < g.order && 0 <= b < g.order ==>
        multiset(rev.adj[a])[b] == if b < i then multiset(g.adj[b])[a] else 0
    {
      var k := 0;
      assert g.adj[i][..k] == [];
      while k < |g.adj[i]|
        invariant k <= |g.adj[i]| && Valid(rev) && rev.order == g.order && rev.directed
        invariant forall a, b {:trigger multiset(rev.adj[a])[b]} :: 0 <= a < g.order && 0 <= b < g.order ==>
          multiset(rev.adj[a])[b] == Turned(g, i, k, a, b)
      {
        var y := g.adj[i][k];
        assert g.adj[i][..k + 1] == g.adj[i][..k] + [y];
        rev := AddEdge(rev, y, i).value;
        k := k + 1;
      }
      assert g.adj[i][..k] == g.adj[i];
      i := i + 1;
    }
  }

  /** Reversal is its own inverse. */
  lemma ReversalBack(g: Graph, rev: Graph)
    requires Valid(g) && Reversal(g, rev)
    ensures Reversal(rev, g)
  {
  }

  lemma ReversedEdge(g: Graph, rev: Graph, a: nat, b: nat)
    requires Valid(g) && Reversal(g, rev)
    ensures Edge(rev, a, b) <==> Edge(g, b, a)
  {
    if Edge(rev, a, b) {
      EdgeNodes(rev, a, b);
    }
    if Edge(g, b, a) {
      EdgeNodes(g, b, a);
    }
    if a < g.order && b < g.order {
      assert b in rev.adj[a] <==> multiset(rev.adj[a])[b] > 0;
      assert a in g.adj[b] <==> multiset(g.adj[b])[a] > 0;
    }
  }

  /** A walk in the reversed graph, read backwards, is a walk in g. */
  lemma ReversedReachOne(g: Graph, rev: Graph, a: nat, b: nat)
    requires Valid(g) && Reversal(g, rev) && Reach(rev, a, b)
    ensures Reach(g, b, a)
  {
    var p :| IsWalk(rev, p) && p[0] == a && p[|p| - 1] == b;
    var n := |p|;
    var q := seq(n, i requires 0 <= i < n => p[n - 1 - i]);
    forall i: nat | i < n - 1
      ensures Hop(g, q, i)
    {
      assert Hop(rev, p, n - 2 - i);
      ReversedEdge(g, rev, p[n - 2 - i], p[n - 1 - i]);
    }
    assert IsWalk(g, q) && q[0] == b && q[n - 1] == a;
  }

  /** Reachability in the reversed graph is reachability in g turned around. */
  lemma ReversedReach(g: Graph, rev: Graph, a: nat, b: nat)
    requires Valid(g) && Reversal(g, rev)
    ensures Reach(rev, a, b) <==> Reach(g, b, a)
  {
    if Reach(rev, a, b) {
      ReversedReachOne(g, rev, a, b);
    }
    if Reach(g, b, a) {
      ReversalBack(g, rev);
      ReversedReachOne(rev, g, b, a);
    }
  }

  // ---------------------------------------------------------------------
  // Components

  /** u and v reach each other: one strongly connected component holds both. */
  ghost predicate Scc(g: Graph, u: nat, v: nat) {
    Reach(g, u, v) && Reach(g, v, u)
  }

  lemma SccTrans(g: Graph, u: nat, v: nat, w: nat)
    requires Scc(g, u, v) && Scc(g, v, w)
    ensures Scc(g, u, w)
  {
    ReachTrans(g, u, v, w);
    ReachTrans(g, w, v, u);
  }

  /** Some node has number c. */
  ghost predicate Used(comp: seq<nat>, c: nat) {
    exists v :: 0 <= v < |comp| && comp[v] == c
  }

  /** What both algorithms promise: every node gets a number in 1..count,
      every number is used, and two nodes share a number exactly when they
      reach each other. */
  ghost predicate Partition(g: Graph, comp: seq<nat>, count: nat) {
    && |comp| == g.order && count <= g.order
    && (forall v :: 0 <= v < g.order ==> 1 <= comp[v] <= count)
    && (forall c :: 1 <= c <= count ==> Used(comp, c))
    && (forall u, v :: 0 <= u < g.order && 0 <= v < g.order ==> (comp[u] == comp[v] <==> Scc(g, u, v)))
  }

  // ---------------------------------------------------------------------
  // Kosaraju, first pass: the order in which the searches finish.
  //
  // During __dfs_suff the marked nodes are the finished ones, F in finishing
  // order, and the open ones, A, the chain of calls in progress.

  ghost predicate Marks(g: Graph, m: seq<bool>, F: seq<nat>, A: seq<nat>) {
    |m| == g.order && forall v :: 0 <= v < g.order ==> (m[v] <==> v in F || v in A)
  }

  /** Finished nodes are distinct, and none of them is open. */
  ghost predicate Apart(g: Graph, F: seq<nat>, A: seq<nat>) {
    && Distinct(F)
    && (forall i :: 0 <= i < |F| ==> F[i] < g.order && F[i] !in A)
    && (forall i :: 0 <= i < |A| ==> A[i] < g.order)
  }

  /** The open nodes are a walk whose last edge leads on to x. */
  ghost predicate Stack(g: Graph, A: seq<nat>, x: nat) {
    IsWalk(g, A + [x])
  }

  /** An edge out of a finished node ends at a finished or an open node. */
  ghost predicate Shut(g: Graph, F: seq<nat>, A: seq<nat>) {
    forall u, w :: u in F && Edge(g, u, w) ==> w in F || w in A
  }

  /** u lies in the component of some open node. */
  ghost predicate InScc(g: Graph, u: nat, A: seq<nat>) {
    exists a :: a in A && Scc(g, u, a)
  }

  /** A finished node that reaches beyond the finished ones shares a
      component with an open node. */
  ghost predicate Hang(g: Graph, F: seq<nat>, A: seq<nat>) {
    forall u, r :: u in F && r !in F && Reach(g, u, r) ==> InScc(g, u, A)
  }

  /** Some node finished at position j or later shares F[i]'s component. */
  ghost predicate Later(g: Graph, F: seq<nat>, i: nat, j: nat)
    requires i < |F|
  {
    exists k :: j <= k < |F| && Scc(g, F[i], F[k])
  }

  /** When an earlier finished node reaches a later one, its component
      finishes again later on, or is still open. */
  ghost predicate Dom(g: Graph, F: seq<nat>, A: seq<nat>) {
    forall i, j :: 0 <= i < j < |F| && Reach(g, F[i], F[j]) ==> Later(g, F, i, j) || InScc(g, F[i], A)
  }

  /** Each open node reaches x. */
  lemma StackReach(g: Graph, A: seq<nat>, x: nat, a: nat)
    requires Stack(g, A, x) && a in A
    ensures Reach(g, a, x)
  {
    var k :| 0 <= k < |A| && A[k] == a;
    ReachAlong(g, A + [x], k, |A|);
  }

  lemma StackPush(g: Graph, A: seq<nat>, x: nat, y: nat)
    requires Stack(g, A, x) && Edge(g, x, y)
    ensures Stack(g, A + [x], y)
  {
    WalkAppend(g, A + [x], y);
    assert A + [x] + [y] == (A + [x]) + [y];
  }

  /** Opening x keeps every property of the finished nodes. */
  lemma Widen(g: Graph, F: seq<nat>, A: seq<nat>, x: nat)
    requires Shut(g, F, A) && Hang(g, F, A) && Dom(g, F, A)
    ensures Shut(g, F, A + [x]) && Hang(g, F, A + [x]) && Dom(g, F, A + [x])
  {
    forall u | InScc(g, u, A) ensures InScc(g, u, A + [x]) {
      var a :| a in A && Scc(g, u, a);
      assert a in A + [x];
    }
  }

  /** Once x's successors are all marked, whatever x reaches outside the
      finished nodes and x itself lies behind an open node x reaches. */
  lemma Leaving(g: Graph, F: seq<nat>, A: seq<nat>, x: nat, r: nat)
    requires Stack(g, A, x) && Shut(g, F, A + [x])
    requires forall w :: Edge(g, x, w) ==> w in F || w in A || w == x
    requires r !in F && r != x && Reach(g, x, r)
    ensures InScc(g, x, A)
  {
    var p :| IsWalk(g, p) && p[0] == x && p[|p| - 1] == r;
    var t := 0;
    while t + 1 < |p| && (p[t + 1] in F || p[t + 1] == x)
      invariant t < |p| && (p[t] in F || p[t] == x)
      decreases |p| - t
    {
      t := t + 1;
    }
    var w := p[t + 1];
    assert Hop(g, p, t);
    assert w in A;
    ReachAlong(g, p, 0, t + 1);
    StackReach(g, A, x, w);
  }

  /** Finishing x: it joins the finished nodes and leaves the open ones. */
  lemma Finish(g: Graph, F: seq<nat>, A: seq<nat>, x: nat)
    requires Stack(g, A, x) && x !in F
    requires Shut(g, F, A + [x]) && Hang(g, F, A + [x]) && Dom(g, F, A + [x])
    requires forall w :: Edge(g, x, w) ==> w in F || w in A || w == x
    ensures Shut(g, F + [x], A) && Hang(g, F + [x], A) && Dom(g, F + [x], A)
  {
    var G := F + [x];
    forall u, w | u in G && Edge(g, u, w) ensures w in G || w in A {
      if u != x { assert u in F; }
    }
    forall u, r | u in G && r !in G && Reach(g, u, r) ensures InScc(g, u, A) {
      if u == x {
        Leaving(g, F, A, x, r);
      } else {
        assert InScc(g, u, A + [x]);
        var a :| a in A + [x] && Scc(g, u, a);
        if a == x {
          ReachTrans(g, x, u, r);
          Leaving(g, F, A, x, r);
          var b :| b in A && Scc(g, x, b);
          SccTrans(g, u, x, b);
        }
      }
    }
    forall i, j | 0 <= i < j < |G| && Reach(g, G[i], G[j])
      ensures Later(g, G, i, j) || InScc(g, G[i], A)
    {
      var u := F[i];
      assert G[|F|] == x;
      if j < |F| {
        assert G[j] == F[j];
        if Later(g, F, i, j) {
          var k :| j <= k < |F| && Scc(g, u, F[k]);
          assert G[k] == F[k];
        } else {
          var a :| a in A + [x] && Scc(g, u, a);
          if a != x { assert a in A; }
        }
      } else {
        assert InScc(g, u, A + [x]);
        var a :| a in A + [x] && Scc(g, u, a);
        if a != x { assert a in A; }
      }
    }
  }

  /** __dfs_suff (graph/strong_connectivity.py:27-32): marks x, searches from
      each unmarked successor, then appends x to the finishing order. */
  method DfsSuff(g: Graph, x: nat, m: seq<bool>, F: seq<nat>, ghost A: seq<nat>)
    returns (m': seq<bool>, F': seq<nat>)
    requires Valid(g) && x < g.order && Marks(g, m, F, A) && !m[x]
    requires Apart(g, F, A) && Stack(g, A, x)
    requires Shut(g, F, A) && Hang(g, F, A) && Dom(g, F, A)
    ensures Marks(g, m', F', A) && Grows(m, m') && Apart(g, F', A)
    ensures Shut(g, F', A) && Hang(g, F', A) && Dom(g, F', A)
    ensures |F| < |F'| && F'[..|F|] == F && F'[|F'| - 1] == x
    decreases Unmarked(m)
  {
    Widen(g, F, A, x);
    m' := m[x := true];
    F' := F;
    var i := 0;
    while i < |g.adj[x]|
      invariant i <= |g.adj[x]|
      invariant Marks(g, m', F', A + [x]) && Grows(m, m') && m'[x] && Apart(g, F', A + [x])
      invariant Shut(g, F', A + [x]) && Hang(g, F', A + [x]) && Dom(g, F', A + [x])
      invariant |F| <= |F'| && F'[..|F|] == F
      invariant forall k :: 0 <= k < i ==> m'[g.adj[x][k]]
    {
      var y := g.adj[x][i];
      ghost var before := m';
      if !m'[y] {
        UnmarkedShrinks(m, m', x);
        StackPush(g, A, x, y);
        var F0 := F';
        m', F' := DfsSuff(g, y, m', F', A + [x]);
        assert F'[..|F|] == F0[..|F|];
      }
      GrowsAdj(g, x, i, before, m');
      i := i + 1;
    }
    forall w | Edge(g, x, w) ensures w in F' || w in A || w == x {
      var k :| 0 <= k < |g.adj[x]| && g.adj[x][k] == w;
    }
    Finish(g, F', A, x);
    var F0 := F';
    F' := F' + [x];
    assert F'[..|F|] == F0[..|F|];
  }

  /** A finishing order of all the nodes in which a node that reaches one
      finished after it has a component-mate finished no earlier than that. */
  ghost predicate Finishing(g: Graph, F: seq<nat>) {
    && |F| == g.order && Distinct(F)
    && (forall i :: 0 <= i < |F| ==> F[i] < g.order)
    && (forall v :: 0 <= v < g.order ==> v in F)
    && (forall i, j {:trigger Later(g, F, i, j)} ::
          0 <= i < j < |F| && Reach(g, F[i], F[j]) ==> Later(g, F, i, j))
  }

  /** The first pass (graph/strong_connectivity.py:34-39): every node is
      finished exactly once, and a node finished earlier that reaches one
      finished later has a component-mate finished no earlier than that. */
  method SuffixOrder(g: Graph) returns (F: seq<nat>)
    requires Valid(g)
    ensures |F| == g.order && Distinct(F)
    ensures forall i :: 0 <= i < |F| ==> F[i] < g.order
    ensures forall v :: 0 <= v < g.order ==> v in F
    ensures Finishing(g, F)
  {
    var m := seq(g.order, _ => false);
    F := [];
    var node := 0;
    while node < g.order
      invariant node <= g.order && Marks(g, m, F, []) && Apart(g, F, [])
      invariant Shut(g, F, []) && Hang(g, F, []) && Dom(g, F, [])
      invariant forall v :: 0 <= v < node ==> m[v]
    {
      if !m[node] {
        m, F := DfsSuff(g, node, m, F, []);
      }
      node := node + 1;
    }
    DistinctLength(F, g.order);
    if |F| < g.order {
      var v := Missing(F, g.order);
    }
  }

  // ---------------------------------------------------------------------
  // Kosaraju, second pass: searches of the reversed graph.

  /** The map entries that are set, as marks: the numbered nodes of a
      component map, or the discovered nodes of a prefix-index map. */
  function Assigned(comp: seq<nat>): (m: seq<bool>)
    ensures |m| == |comp| && forall v :: 0 <= v < |comp| ==> (m[v] <==> comp[v] != 0)
  {
    seq(|comp|, v requires 0 <= v < |comp| => comp[v] != 0)
  }

  /** Set entries stay; an unset entry stays unset or becomes id. */
  ghost predicate Keeps(comp: seq<nat>, comp': seq<nat>, id: nat) {
    && |comp'| == |comp|
    && forall v :: 0 <= v < |comp| ==>
         (comp[v] != 0 ==> comp'[v] == comp[v]) && (comp[v] == 0 ==> comp'[v] == 0 || comp'[v] == id)
  }

  /** Assigned by this search: unset before, id after. */
  ghost predicate Claimed(comp: seq<nat>, comp': seq<nat>, id: nat, v: nat) {
    v < |comp| == |comp'| && comp[v] == 0 && comp'[v] == id
  }

  /** __dfs with a component number as the mark (graph/strong_connectivity.py:20-24):
      the nodes it claims are reached from x, and every edge out of a
      claimed node ends at a node that is set. */
  method Assign(h: Graph, x: nat, comp: seq<nat>, id: nat) returns (comp': seq<nat>)
    requires Valid(h) && x < h.order && |comp| == h.order && comp[x] == 0 && id > 0
    ensures Keeps(comp, comp', id) && comp'[x] == id
    ensures forall v: nat :: Claimed(comp, comp', id, v) ==> Reach(h, x, v)
    ensures forall v: nat, w: nat :: Claimed(comp, comp', id, v) && Edge(h, v, w) ==> w < |comp'| && comp'[w] != 0
    decreases Unmarked(Assigned(comp))
  {
    comp' := comp[x := id];
    ReachRefl(h, x);
    var i := 0;
    while i < |h.adj[x]|
      invariant i <= |h.adj[x]| && Keeps(comp, comp', id) && comp'[x] == id
      invariant forall v: nat :: Claimed(comp, comp', id, v) ==> Reach(h, x, v)
      invariant forall v: nat, w: nat :: v != x && Claimed(comp, comp', id, v) && Edge(h, v, w) ==>
        w < |comp'| && comp'[w] != 0
      invariant forall k :: 0 <= k < i ==> comp'[h.adj[x][k]] != 0
    {
      var y := h.adj[x][i];
      ghost var before := comp';
      if comp'[y] == 0 {
        UnmarkedShrinks(Assigned(comp), Assigned(comp'), x);
        var next := Assign(h, y, comp', id);
        forall v: nat | Claimed(comp, next, id, v) ensures Reach(h, x, v) {
          if comp'[v] == 0 {
            assert Edge(h, x, y);
            StepReach(h, x, y, v);
          }
        }
        comp' := next;
      }
      KeepsAdj(h, x, i, before, comp', id);
      i := i + 1;
    }
    forall w: nat | Edge(h, x, w) ensures w < |comp'| && comp'[w] != 0 {
      var k :| 0 <= k < |h.adj[x]| && h.adj[x][k] == w;
    }
  }

  /** Successors of x that are set stay set, and the next one is set now. */
  lemma KeepsAdj(h: Graph, x: nat, i: nat, c1: seq<nat>, c2: seq<nat>, id: nat)
    requires Valid(h) && x < h.order && |c1| == h.order && i < |h.adj[x]| && Keeps(c1, c2, id)
    requires forall k :: 0 <= k < i ==> c1[h.adj[x][k]] != 0
    requires c2[h.adj[x][i]] != 0
    ensures forall k :: 0 <= k < i + 1 ==> c2[h.adj[x][k]] != 0
  {
    forall k | 0 <= k < i + 1 ensures c2[h.adj[x][k]] != 0 {
      if k < i {
        assert c1[h.adj[x][k]] != 0;
      }
    }
  }

  /** Second-pass state: every set entry c names a component whose first
      node, heads[c-1], shares it; and that component is set to c throughout. */
  ghost predicate Numbered(g: Graph, comp: seq<nat>, heads: seq<nat>) {
    && |comp| == g.order
    && (forall c :: 0 <= c < |heads| ==> heads[c] < g.order && comp[heads[c]] == c + 1)
    && (forall v :: 0 <= v < g.order ==> comp[v] <= |heads|)
    && (forall v :: 0 <= v < g.order && comp[v] != 0 ==> Scc(g, v, heads[comp[v] - 1]))
    && (forall c, v {:trigger Scc(g, v, heads[c])} ::
          0 <= c < |heads| && 0 <= v < g.order && Scc(g, v, heads[c]) ==> comp[v] == c + 1)
  }

  /** A node that shares the component of an unset node is unset. */
  lemma Unset(g: Graph, comp: seq<nat>, heads: seq<nat>, node: nat, v: nat)
    requires Numbered(g, comp, heads) && node < g.order && v < g.order
    requires comp[node] == 0 && Scc(g, v, node)
    ensures comp[v] == 0
  {
    if comp[v] != 0 {
      SccTrans(g, node, v, heads[comp[v] - 1]);
    }
  }

  /** The nodes at positions p and later are set. */
  ghost predicate Done(F: seq<nat>, p: nat, comp: seq<nat>) {
    forall k :: p <= k < |F| ==> F[k] < |comp| && comp[F[k]] != 0
  }

  /** An unset node's component-mates finished at p or later sit at p. */
  lemma MateAt(g: Graph, F: seq<nat>, p: nat, comp: seq<nat>, heads: seq<nat>, v: nat, k: nat)
    requires Numbered(g, comp, heads) && Done(F, p + 1, comp)
    requires v < g.order && comp[v] == 0 && p <= k < |F| && F[k] < g.order && Scc(g, v, F[k])
    ensures k == p
  {
    if k > p {
      SccTrans(g, v, F[k], heads[comp[F[k]] - 1]);
    }
  }

  /** An unset node finished at p or earlier. */
  lemma UnsetAt(F: seq<nat>, p: nat, comp: seq<nat>, v: nat, i: nat)
    requires Done(F, p + 1, comp) && v < |comp| && comp[v] == 0 && i < |F| && F[i] == v
    ensures i <= p
  {
  }

  /** A node the search from F[p] claims shares F[p]'s component: it reaches
      F[p], so by the finishing order a mate of it finished at p or later,
      and every one after p is set already. */
  lemma ClaimedInScc(g: Graph, rev: Graph, F: seq<nat>, p: nat, comp: seq<nat>, heads: seq<nat>,
                     next: seq<nat>, v: nat)
    requires Valid(g) && Reversal(g, rev)
    requires Finishing(g, F) && p < |F| && Numbered(g, comp, heads) && Done(F, p + 1, comp)
    requires comp[F[p]] == 0
    requires v < g.order && comp[v] == 0 && Reach(rev, F[p], v)
    ensures Scc(g, v, F[p])
  {
    ReversedReach(g, rev, F[p], v);
    var i := IndexIn(F, v);
    UnsetAt(F, p, comp, v, i);
    if i < p {
      assert Later(g, F, i, p);
      var k :| p <= k < |F| && Scc(g, v, F[k]);
      MateAt(g, F, p, comp, heads, v, k);
    } else {
      ReachRefl(g, v);
    }
  }

  /** Every node of node's component is claimed by the search from node:
      along a walk from it to node, each node is unset and in the component,
      so claims spread back from node against the edges. */
  lemma SccClaimed(g: Graph, node: nat, comp: seq<nat>, heads: seq<nat>, next: seq<nat>, v: nat)
    requires Valid(g) && Numbered(g, comp, heads)
    requires node < g.order && comp[node] == 0
    requires Keeps(comp, next, |heads| + 1) && next[node] == |heads| + 1
    requires forall a: nat, w: nat :: Claimed(comp, next, |heads| + 1, a) && Edge(g, w, a) ==>
      w < |next| && next[w] != 0
    requires v < g.order && Scc(g, v, node)
    ensures Claimed(comp, next, |heads| + 1, v)
  {
    var q :| IsWalk(g, q) && q[0] == v && q[|q| - 1] == node;
    var t := |q| - 1;
    while t > 0
      invariant 0 <= t < |q| && Claimed(comp, next, |heads| + 1, q[t])
    {
      ClaimedBack(g, node, comp, heads, next, v, q, t);
      t := t - 1;
    }
  }

  /** Along a walk from a mate v of node to node, the claim spreads from
      step t back to step t - 1. */
  lemma ClaimedBack(g: Graph, node: nat, comp: seq<nat>, heads: seq<nat>, next: seq<nat>,
                    v: nat, q: seq<nat>, t: nat)
    requires Valid(g) && Numbered(g, comp, heads)
    requires node < g.order && comp[node] == 0
    requires forall a: nat, w: nat :: Claimed(comp, next, |heads| + 1, a) && Edge(g, w, a) ==>
      w < |next| && next[w] != 0
    requires Keeps(comp, next, |heads| + 1)
    requires v < g.order && Scc(g, v, node)
    requires IsWalk(g, q) && q[0] == v && q[|q| - 1] == node && 0 < t < |q|
    requires Claimed(comp, next, |heads| + 1, q[t])
    ensures Claimed(comp, next, |heads| + 1, q[t - 1])
  {
    var w := q[t - 1];
    assert Hop(g, q, t - 1);
    WalkMate(g, q, t - 1);
    Unset(g, comp, heads, node, w);
  }

  /** Every node on a walk between two mates is their mate. */
  lemma WalkMate(g: Graph, q: seq<nat>, i: nat)
    requires IsWalk(g, q) && i < |q| && Scc(g, q[0], q[|q| - 1])
    ensures Scc(g, q[i], q[|q| - 1])
  {
    ReachAlong(g, q, 0, i);
    ReachAlong(g, q, i, |q| - 1);
    ReachTrans(g, q[|q| - 1], q[0], q[i]);
  }

  /** Numbering node's component, exactly the claimed nodes, with the next
      number keeps the numbering. */
  lemma Renumber(g: Graph, comp: seq<nat>, heads: seq<nat>, node: nat, next: seq<nat>)
    requires Numbered(g, comp, heads) && node < g.order && comp[node] == 0
    requires Keeps(comp, next, |heads| + 1)
    requires forall v :: 0 <= v < g.order ==> (Claimed(comp, next, |heads| + 1, v) <==> Scc(g, v, node))
    ensures Numbered(g, next, heads + [node])
  {
    RenumberHeads(g, comp, heads, node, next);
    RenumberAll(g, comp, heads, node, next);
    RenumberComplete(g, comp, heads, node, next);
  }

  lemma RenumberHeads(g: Graph, comp: seq<nat>, heads: seq<nat>, node: nat, next: seq<nat>)
    requires Numbered(g, comp, heads) && node < g.order && comp[node] == 0
    requires Keeps(comp, next, |heads| + 1)
    requires forall v :: 0 <= v < g.order ==> (Claimed(comp, next, |heads| + 1, v) <==> Scc(g, v, node))
    ensures forall c :: 0 <= c < |heads + [node]| ==> (heads + [node])[c] < g.order && next[(heads + [node])[c]] == c + 1
  {
    ReachRefl(g, node);
    assert Scc(g, node, node);
    assert Claimed(comp, next, |heads| + 1, node);
    forall c | 0 <= c < |heads + [node]| ensures (heads + [node])[c] < g.order && next[(heads + [node])[c]] == c + 1 {
      if c < |heads| { assert (heads + [node])[c] == heads[c]; }
    }
  }

  lemma RenumberAll(g: Graph, comp: seq<nat>, heads: seq<nat>, node: nat, next: seq<nat>)
    requires Numbered(g, comp, heads) && node < g.order && comp[node] == 0
    requires Keeps(comp, next, |heads| + 1)
    requires forall v :: 0 <= v < g.order ==> (Claimed(comp, next, |heads| + 1, v) <==> Scc(g, v, node))
    ensures forall v :: 0 <= v < g.order ==> next[v] <= |heads + [node]|
    ensures forall v :: 0 <= v < g.order && next[v] != 0 ==> Scc(g, v, (heads + [node])[next[v] - 1])
  {
    forall v | 0 <= v < g.order
      ensures next[v] <= |heads + [node]| && (next[v] != 0 ==> Scc(g, v, (heads + [node])[next[v] - 1]))
    {
      if next[v] != 0 { RenumberSound(g, comp, heads, node, next, v); }
    }
  }

  lemma RenumberComplete(g: Graph, comp: seq<nat>, heads: seq<nat>, node: nat, next: seq<nat>)
    requires Numbered(g, comp, heads) && node < g.order && comp[node] == 0
    requires Keeps(comp, next, |heads| + 1)
    requires forall v :: 0 <= v < g.order ==> (Claimed(comp, next, |heads| + 1, v) <==> Scc(g, v, node))
    ensures forall c, v {:trigger Scc(g, v, (heads + [node])[c])} ::
      0 <= c < |heads + [node]| && 0 <= v < g.order && Scc(g, v, (heads + [node])[c]) ==> next[v] == c + 1
  {
    forall c, v | 0 <= c < |heads + [node]| && 0 <= v < g.order && Scc(g, v, (heads + [node])[c])
      ensures next[v] == c + 1
    {
      RenumberMate(g, comp, heads, node, next, c, v);
    }
  }

  lemma RenumberSound(g: Graph, comp: seq<nat>, heads: seq<nat>, node: nat, next: seq<nat>, v: nat)
    requires Numbered(g, comp, heads) && node < g.order && comp[node] == 0
    requires Keeps(comp, next, |heads| + 1)
    requires forall v :: 0 <= v < g.order ==> (Claimed(comp, next, |heads| + 1, v) <==> Scc(g, v, node))
    requires v < g.order && next[v] != 0
    ensures next[v] <= |heads| + 1 && Scc(g, v, (heads + [node])[next[v] - 1])
  {
    if comp[v] != 0 {
      KeptSound(g, comp, heads, node, next, v);
    } else {
      ClaimedSound(g, comp, heads, node, next, v);
    }
  }

  /** A node numbered before keeps its number and its head. */
  lemma KeptSound(g: Graph, comp: seq<nat>, heads: seq<nat>, node: nat, next: seq<nat>, v: nat)
    requires |comp| == g.order && Keeps(comp, next, |heads| + 1)
    requires v < g.order && 0 < comp[v] <= |heads| && Scc(g, v, heads[comp[v] - 1])
    ensures next[v] <= |heads| + 1 && Scc(g, v, (heads + [node])[next[v] - 1])
  {
    var c := comp[v] - 1;
    assert c < |heads| && next[v] == c + 1;
    assert (heads + [node])[c] == heads[c];
  }

  /** A node claimed now shares node's component. */
  lemma ClaimedSound(g: Graph, comp: seq<nat>, heads: seq<nat>, node: nat, next: seq<nat>, v: nat)
    requires |comp| == g.order && Keeps(comp, next, |heads| + 1)
    requires forall v :: 0 <= v < g.order ==> (Claimed(comp, next, |heads| + 1, v) <==> Scc(g, v, node))
    requires v < g.order && comp[v] == 0 && next[v] != 0
    ensures next[v] <= |heads| + 1 && Scc(g, v, (heads + [node])[next[v] - 1])
  {
    assert next[v] == |heads| + 1;
    assert Claimed(comp, next, |heads| + 1, v);
    assert (heads + [node])[|heads|] == node;
  }

  lemma RenumberMate(g: Graph, comp: seq<nat>, heads: seq<nat>, node: nat, next: seq<nat>, c: nat, v: nat)
    requires Numbered(g, comp, heads) && node < g.order && comp[node] == 0
    requires Keeps(comp, next, |heads| + 1)
    requires forall v :: 0 <= v < g.order ==> (Claimed(comp, next, |heads| + 1, v) <==> Scc(g, v, node))
    requires c <= |heads| && v < g.order && Scc(g, v, (heads + [node])[c])
    ensures next[v] == c + 1
  {
    if c < |heads| {
      assert (heads + [node])[c] == heads[c];
    }
  }

  /** One turn of the second loop with F[p] unset: the search claims exactly
      F[p]'s component, which takes the next number. */
  lemma Claim(g: Graph, rev: Graph, F: seq<nat>, p: nat, comp: seq<nat>, heads: seq<nat>, next: seq<nat>)
    requires Valid(g) && Reversal(g, rev)
    requires Finishing(g, F) && p < |F| && Numbered(g, comp, heads) && Done(F, p + 1, comp)
    requires comp[F[p]] == 0
    requires Keeps(comp, next, |heads| + 1) && next[F[p]] == |heads| + 1
    requires forall v: nat :: Claimed(comp, next, |heads| + 1, v) ==> Reach(rev, F[p], v)
    requires forall a: nat, w: nat :: Claimed(comp, next, |heads| + 1, a) && Edge(rev, a, w) ==>
      w < |next| && next[w] != 0
    ensures Numbered(g, next, heads + [F[p]]) && Done(F, p, next)
  {
    var node := F[p];
    var id := |heads| + 1;
    forall a: nat, w: nat | Claimed(comp, next, id, a) && Edge(g, w, a)
      ensures w < |next| && next[w] != 0
    {
      ReversedEdge(g, rev, a, w);
    }
    forall v | 0 <= v < g.order ensures Claimed(comp, next, id, v) <==> Scc(g, v, node) {
      if Claimed(comp, next, id, v) {
        ClaimedInScc(g, rev, F, p, comp, heads, next, v);
      }
      if Scc(g, v, node) {
        SccClaimed(g, node, comp, heads, next, v);
      }
    }
    Renumber(g, comp, heads, node, next);
  }

  /** kosaraju (graph/strong_connectivity.py:15-51): the finishing order is
      consumed from its last entry (deque.pop), and each node still unset
      starts a search of the reversed graph that numbers its component. */
  method Kosaraju(g: Graph) returns (comp: seq<nat>, count: nat)
    requires Valid(g)
    ensures Partition(g, comp, count)
  {
    var F := SuffixOrder(g);
    var rev := Reverse(g);
    count := 0;
    comp := seq(g.order, _ => 0);
    ghost var heads: seq<nat> := [];
    var p: nat := |F|;
    while p > 0
      invariant p <= |F| && Numbered(g, comp, heads) && Done(F, p, comp) && count == |heads|
    {
      p := p - 1;
      var node := F[p];
      if comp[node] == 0 {
        count := count + 1;
        var next := Assign(rev, node, comp, count);
        Claim(g, rev, F, p, comp, heads, next);
        comp := next;
        heads := heads + [node];
      }
    }
    Numbers(g, F, comp, heads);
  }

  /** A finished second pass is the partition into components. */
  lemma Numbers(g: Graph, F: seq<nat>, comp: seq<nat>, heads: seq<nat>)
    requires Finishing(g, F) && Numbered(g, comp, heads) && Done(F, 0, comp)
    ensures Partition(g, comp, |heads|)
  {
    forall v | 0 <= v < g.order ensures comp[v] != 0 {
      var k := IndexIn(F, v);
    }
    Settled(g, comp, heads);
  }

  /** Once every node has a number, the numbering is the partition into
      strongly connected components. */
  lemma Settled(g: Graph, comp: seq<nat>, heads: seq<nat>)
    requires Numbered(g, comp, heads) && forall v :: 0 <= v < g.order ==> comp[v] != 0
    ensures Partition(g, comp, |heads|)
  {
    forall c | 1 <= c <= |heads| ensures Used(comp, c) {
      assert comp[heads[c - 1]] == c;
    }
    forall u, v | 0 <= u < g.order && 0 <= v < g.order ensures comp[u] == comp[v] <==> Scc(g, u, v) {
      SameNumber(g, comp, heads, u, v);
    }
    HeadsFew(g, comp, heads);
  }

  /** With every node set, two nodes share a number exactly when they share
      a component. */
  lemma SameNumber(g: Graph, comp: seq<nat>, heads: seq<nat>, u: nat, v: nat)
    requires Numbered(g, comp, heads) && u < g.order && v < g.order && comp[u] != 0
    ensures comp[u] == comp[v] <==> Scc(g, u, v)
  {
    var h := heads[comp[u] - 1];
    if comp[u] == comp[v] {
      SccTrans(g, u, h, v);
    }
    if Scc(g, u, v) {
      SccTrans(g, v, u, h);
    }
  }

  /** The components are numbered by distinct first nodes, so there are no
      more of them than nodes. */
  lemma HeadsFew(g: Graph, comp: seq<nat>, heads: seq<nat>)
    requires Numbered(g, comp, heads)
    ensures |heads| <= g.order
  {
    assert Distinct(heads) by {
      forall a, b | 0 <= a < b < |heads| ensures heads[a] != heads[b] {
        assert comp[heads[a]] != comp[heads[b]];
      }
    }
    DistinctLength(heads, g.order);
  }

  // ---------------------------------------------------------------------
  // The source as written

  /** A value, or Python's None. */
  datatype Option<T> = None | Some(value: T)

  /** reverse exactly as graph/strong_connectivity.py:5-12 is written: the
      loop only fills the local revG, and with no return statement the call
      yields None. */
  function ReverseAsWritten(g: Graph): (r: Option<Graph>)
    requires Valid(g)
    ensures r.None?
  {
    None
  }

  /** kosaraju with the loop test at :46 corrected and reverse as written:
      revG is None, so the first search of the second pass fails on
      `G.adjlists` (:22) with AttributeError. Only a graph without nodes,
      whose finishing order is empty, gets through, with no component. */
  method KosarajuReverseNone(g: Graph) returns (r: Result<(seq<nat>, nat)>)
    requires Valid(g)
    ensures g.order == 0 <==> r == Ok(([], 0))
    ensures g.order > 0 <==> r == Err(NoAttribute)
  {
    var F := SuffixOrder(g);
    var rev := ReverseAsWritten(g);
    var comp: seq<nat> := seq(g.order, _ => 0);
    if F != [] {
      // F's last node is unset and starts __dfs on None
      return Err(NoAttribute);
    }
    return Ok((comp, 0));
  }

  /** kosaraju exactly as written: after the first pass and the call to
      reverse, the loop test `suffix_order.isempty()` (:46) raises
      AttributeError before any component is numbered, whatever the graph. */
  method KosarajuAsWritten(g: Graph) returns (r: Result<(seq<nat>, nat)>)
    requires Valid(g)
    ensures r == Err(NoAttribute)
  {
    var F := SuffixOrder(g);
    var rev := ReverseAsWritten(g);
    return Err(NoAttribute);
  }
}
