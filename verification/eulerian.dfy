/**
 * is_eulerian of graph/types.py: a depth-first search from node 0 that counts
 * the visited nodes and the visited nodes of odd degree. The graph passes
 * when the search reaches every node and at most two nodes have odd degree.
 *
 * graph/types.py:30 adds `degree // 2` (half the degree) to the odd count,
 * although the comment at :26 and the test at :36-37 count odd-degree nodes.
 * The search is modelled once, with a flag `half` choosing what each node
 * adds: IsEulerian adds `degree % 2`, IsEulerianAsWritten adds `degree // 2`.
 */
module Eulerian {
  import opened Graphs

  /** The degree as graph/types.py:11,17-18 computes it: one per list entry,
      and one more per self-loop entry, so a loop counts twice. */
  function Degree(g: Graph, v: nat): nat
    requires v < |g.adj|
  {
    |g.adj[v]| + Occurrences(g.adj[v], v)
  }

  /** A self-loop added by add_edge raises its node's degree by 2. */
  lemma DegreeAddLoop(g: Graph, v: nat)
    requires Valid(g) && v < g.order
    ensures AddEdge(g, v, v).Ok?
    ensures Degree(AddEdge(g, v, v).value, v) == Degree(g, v) + 2
  {
    var h := AddEdge(g, v, v).value;
    assert h.adj[v] == g.adj[v] + [v];
    assert h.adj[v][..|h.adj[v]| - 1] == g.adj[v];
  }

  /** An undirected non-loop edge raises the degree of both ends by 1 and
      leaves every other degree alone. */
  lemma DegreeAddEdge(g: Graph, u: nat, v: nat)
    requires Valid(g) && !g.directed && u < g.order && v < g.order && u != v
    ensures AddEdge(g, u, v).Ok?
    ensures Degree(AddEdge(g, u, v).value, u) == Degree(g, u) + 1
    ensures Degree(AddEdge(g, u, v).value, v) == Degree(g, v) + 1
    ensures forall x :: 0 <= x < g.order && x != u && x != v ==>
      Degree(AddEdge(g, u, v).value, x) == Degree(g, x)
  {
    var h := AddEdge(g, u, v).value;
    assert h.adj[u] == g.adj[u] + [v];
    assert h.adj[u][..|h.adj[u]| - 1] == g.adj[u];
    assert h.adj[v] == g.adj[v] + [u];
    assert h.adj[v][..|h.adj[v]| - 1] == g.adj[v];
  }

  /** What a node of degree d adds to the odd count: 1 when d is odd, else
      0; or, with `half`, half of d rounded down. */
  function Share(d: nat, half: bool): nat {
    if half then d / 2 else d % 2
  }

  /** Every node's share. */
  function Shares(g: Graph, half: bool): (w: seq<nat>)
    requires Valid(g)
    ensures |w| == g.order
    ensures forall v :: 0 <= v < g.order ==> w[v] == Share(Degree(g, v), half)
  {
    seq(g.order, v requires 0 <= v < g.order && Valid(g) => Share(Degree(g, v), half))
  }

  /** The reference: the shares of the nodes below k added up; without
      `half`, the number of nodes below k of odd degree. */
  function TallyBelow(g: Graph, k: nat, half: bool): nat
    requires Valid(g) && k <= g.order
  {
    if k == 0 then 0 else TallyBelow(g, k - 1, half) + Share(Degree(g, k - 1), half)
  }

  /** Every node can be reached from node 0. */
  ghost predicate AllReached(g: Graph) {
    forall v :: 0 <= v < g.order ==> Reach(g, 0, v)
  }

  /** n marks, all equal to b. */
  function Marks(n: nat, b: bool): (m: seq<bool>)
    ensures |m| == n && forall v :: 0 <= v < n ==> m[v] == b
  {
    seq(n, _ => b)
  }

  /** Weight one for every node. */
  function Ones(n: nat): (w: seq<nat>)
    ensures |w| == n && forall v :: 0 <= v < n ==> w[v] == 1
  {
    seq(n, _ => 1)
  }

  /** Sum of w over the nodes marked in b but not in a. */
  function Weight(a: seq<bool>, b: seq<bool>, w: seq<nat>): nat
    requires |a| == |b| == |w|
  {
    if |a| == 0 then 0
    else
      var n := |a| - 1;
      Weight(a[..n], b[..n], w[..n]) + (if b[n] && !a[n] then w[n] else 0)
  }

  /** Weights of successive growths add up. */
  lemma {:induction false} WeightAdds(a: seq<bool>, b: seq<bool>, c: seq<bool>, w: seq<nat>)
    requires Grows(a, b) && Grows(b, c) && |w| == |a|
    ensures Weight(a, c, w) == Weight(a, b, w) + Weight(b, c, w)
    decreases |a|
  {
    if |a| > 0 {
      var n := |a| - 1;
      WeightAdds(a[..n], b[..n], c[..n], w[..n]);
    }
  }

  /** Marking one node adds its own weight. */
  lemma {:induction false} WeightOne(a: seq<bool>, v: nat, w: seq<nat>)
    requires v < |a| == |w| && !a[v]
    ensures Weight(a, a[v := true], w) == w[v]
    decreases |a|
  {
    var n := |a| - 1;
    if v < n {
      assert a[v := true][..n] == a[..n][v := true];
      WeightOne(a[..n], v, w[..n]);
    } else {
      assert a[v := true][..n] == a[..n];
      WeightNone(a[..n], w[..n]);
    }
  }

  lemma {:induction false} WeightNone(a: seq<bool>, w: seq<nat>)
    requires |a| == |w|
    ensures Weight(a, a, w) == 0
    decreases |a|
  {
    if |a| > 0 {
      WeightNone(a[..|a| - 1], w[..|a| - 1]);
    }
  }

  /** Weight never exceeds the weight of everything unmarked. */
  lemma {:induction false} WeightBound(a: seq<bool>, b: seq<bool>, c: seq<bool>, w: seq<nat>)
    requires Grows(a, b) && Grows(b, c) && |w| == |a|
    ensures Weight(a, b, w) <= Weight(a, c, w)
  {
    WeightAdds(a, b, c, w);
  }

  /** From no marks to all marks the weight of the shares is their tally. */
  lemma {:induction false} WeightAll(g: Graph, k: nat, half: bool)
    requires Valid(g) && k <= g.order
    ensures Weight(Marks(k, false), Marks(k, true), Shares(g, half)[..k]) == TallyBelow(g, k, half)
  {
    if k > 0 {
      assert Marks(k, false)[..k - 1] == Marks(k - 1, false);
      assert Marks(k, true)[..k - 1] == Marks(k - 1, true);
      assert Shares(g, half)[..k][..k - 1] == Shares(g, half)[..k - 1];
      WeightAll(g, k - 1, half);
    }
  }

  /** Nodes newly marked by a search from a successor of src are reached
      from src. */
  lemma FreshReach(g: Graph, src: nat, neigh: nat, marked: seq<bool>, m: seq<bool>, m2: seq<bool>)
    requires Edge(g, src, neigh) && Grows(marked, m) && Grows(m, m2)
    requires forall v :: 0 <= v && Fresh(marked, m, v) ==> Reach(g, src, v)
    requires forall v :: 0 <= v && Fresh(m, m2, v) ==> Reach(g, neigh, v)
    ensures forall v :: 0 <= v && Fresh(marked, m2, v) ==> Reach(g, src, v)
  {
    forall v: nat | Fresh(marked, m2, v)
      ensures Reach(g, src, v)
    {
      if !m[v] {
        StepReach(g, src, neigh, v);
      }
    }
  }

  /** Every node newly marked between a and b, except `except`, has all
      its successors marked in b. */
  ghost predicate ClosedFresh(g: Graph, a: seq<bool>, b: seq<bool>, except: int)
    requires Valid(g) && |b| == g.order
  {
    forall v, j :: 0 <= v && Fresh(a, b, v) && v != except && 0 <= j < |g.adj[v]| ==> b[g.adj[v][j]]
  }

  /** After a complete search of src's i-th neighbour, the nodes marked so
      far are closed apart from src, whose first i+1 successors are marked. */
  lemma ChildClosed(g: Graph, src: nat, i: nat, marked: seq<bool>, m: seq<bool>, m2: seq<bool>)
    requires Valid(g) && |marked| == g.order && src < g.order && i < |g.adj[src]|
    requires Grows(marked, m) && Grows(m, m2) && m2[g.adj[src][i]]
    requires ClosedFresh(g, marked, m, src) && ClosedFresh(g, m, m2, -1)
    requires forall j :: 0 <= j < i ==> m[g.adj[src][j]]
    ensures ClosedFresh(g, marked, m2, src)
    ensures forall j :: 0 <= j <= i ==> m2[g.adj[src][j]]
  {
  }

  /** The inner search __is_eulerian (graph/types.py:8-31). It marks src,
      searches each unmarked neighbour in list order, and returns the odd
      count and node count of the nodes it newly marked; it stops with node
      count -1 as soon as the running odd count exceeds 2 (:27-28). The
      odd count adds up the shares of the nodes, per `half`. */
  method Visit(g: Graph, half: bool, src: nat, marked: seq<bool>) returns (odd: nat, count: int, m: seq<bool>)
    requires Valid(g) && |marked| == g.order && src < g.order && !marked[src]
    decreases Unmarked(marked), 1
    ensures Grows(marked, m) && m[src]
    ensures forall v :: 0 <= v && Fresh(marked, m, v) ==> Reach(g, src, v)
    ensures count == -1 ==> odd > 2
    ensures count != -1 ==> count >= 1 && (!half ==> odd <= 3)
    ensures count == -1 ==> odd <= Weight(marked, m, Shares(g, half))
    ensures count != -1 ==>
      && count == Weight(marked, m, Ones(g.order))
      && odd == Weight(marked, m, Shares(g, half))
      && ClosedFresh(g, marked, m, -1)
  {
    var w := Shares(g, half);
    m := marked[src := true];
    WeightOne(marked, src, w);
    WeightOne(marked, src, Ones(g.order));
    ReachRefl(g, src);
    var degree := |g.adj[src]|;
    odd := 0;
    count := 1;
    var i := 0;
    while i < |g.adj[src]|
      invariant i <= |g.adj[src]|
      invariant degree == |g.adj[src]| + Occurrences(g.adj[src][..i], src)
      invariant Grows(marked, m) && m[src] && odd <= 2 && count >= 1
      invariant forall v :: 0 <= v && Fresh(marked, m, v) ==> Reach(g, src, v)
      invariant count == Weight(marked, m, Ones(g.order))
      invariant odd + w[src] == Weight(marked, m, w)
      invariant forall j :: 0 <= j < i ==> m[g.adj[src][j]]
      invariant ClosedFresh(g, marked, m, src)
    {
      UnmarkedShrinks(marked, m, src);
      odd, count, m, degree := Follow(g, half, src, i, marked, m, odd, count, degree);
      if odd > 2 {
        return odd, -1, m;
      }
      i := i + 1;
    }
    assert g.adj[src][..i] == g.adj[src];
    assert degree == Degree(g, src);
    assert w[src] == Share(degree, half);
    odd := odd + (if half then degree / 2 else degree % 2);
  }

  /** One pass of the loop over src's neighbours (graph/types.py:16-28):
      the i-th neighbour adds to the degree, and when it is unmarked its own
      search adds its odd count and node count to src's. */
  method Follow(g: Graph, half: bool, src: nat, i: nat, marked: seq<bool>, m: seq<bool>, odd: nat, count: int, degree: nat)
    returns (odd': nat, count': int, m': seq<bool>, degree': nat)
    requires Valid(g) && |marked| == g.order && src < g.order && i < |g.adj[src]|
    requires degree == |g.adj[src]| + Occurrences(g.adj[src][..i], src)
    requires Grows(marked, m) && m[src] && count >= 1
    requires forall v :: 0 <= v && Fresh(marked, m, v) ==> Reach(g, src, v)
    requires count == Weight(marked, m, Ones(g.order))
    requires odd + Shares(g, half)[src] == Weight(marked, m, Shares(g, half))
    requires forall j :: 0 <= j < i ==> m[g.adj[src][j]]
    requires ClosedFresh(g, marked, m, src)
    decreases Unmarked(m), 2
    ensures degree' == |g.adj[src]| + Occurrences(g.adj[src][..i + 1], src)
    ensures Grows(marked, m') && m'[src] && odd <= odd'
    ensures forall v :: 0 <= v && Fresh(marked, m', v) ==> Reach(g, src, v)
    ensures odd' <= Weight(marked, m', Shares(g, half))
    ensures odd' <= 2 ==>
      && odd' + Shares(g, half)[src] == Weight(marked, m', Shares(g, half))
      && count' >= 1 && count' == Weight(marked, m', Ones(g.order))
      && (forall j :: 0 <= j < i + 1 ==> m'[g.adj[src][j]])
      && ClosedFresh(g, marked, m', src)
  {
    var neigh := g.adj[src][i];
    assert g.adj[src][..i + 1][..i] == g.adj[src][..i];
    odd', count', m', degree' := odd, count, m, degree;
    // Remove self-looping nodes problem (graph/types.py:16-18)
    if src == neigh {
      degree' := degree + 1;
    }
    if !m[neigh] {
      var o, c, m2 := Visit(g, half, neigh, m);
      FreshReach(g, src, neigh, marked, m, m2);
      if c != -1 {
        ChildClosed(g, src, i, marked, m, m2);
      }
      WeightAdds(marked, m, m2, Shares(g, half));
      WeightAdds(marked, m, m2, Ones(g.order));
      odd', count', m' := odd + o, count + c, m2;
    } else {
      assert forall j :: 0 <= j < i + 1 ==> m[g.adj[src][j]];
    }
  }

  /** is_eulerian (graph/types.py:33-37): every node is reached from node 0
      and at most two nodes have odd degree. With no node, marked[0] raises. */
  method IsEulerian(g: Graph) returns (r: Result<bool>)
    requires Valid(g)
    ensures g.order == 0 <==> r == Err(IndexOutOfRange)
    ensures g.order > 0 ==> r == Ok(AllReached(g) && TallyBelow(g, g.order, false) <= 2)
  {
    r := Euler(g, false);
  }

  /** is_eulerian exactly as written: with `degree // 2` at :30 the test
      bounds the sum of the halved degrees instead of the odd nodes. */
  method IsEulerianAsWritten(g: Graph) returns (r: Result<bool>)
    requires Valid(g)
    ensures g.order == 0 <==> r == Err(IndexOutOfRange)
    ensures g.order > 0 ==> r == Ok(AllReached(g) && TallyBelow(g, g.order, true) <= 2)
  {
    r := Euler(g, true);
  }

  /** The search from node 0 and the final test (:33-37), per `half`. */
  method Euler(g: Graph, half: bool) returns (r: Result<bool>)
    requires Valid(g)
    ensures g.order == 0 <==> r == Err(IndexOutOfRange)
    ensures g.order > 0 ==> r == Ok(AllReached(g) && TallyBelow(g, g.order, half) <= 2)
  {
    if g.order == 0 {
      return Err(IndexOutOfRange);
    }
    var marked := Marks(g.order, false);
    ghost var all := Marks(g.order, true);
    var w := Shares(g, half);
    var odd, count, m := Visit(g, half, 0, marked);
    WeightAll(g, g.order, half);
    assert w[..g.order] == w;
    WeightBound(marked, m, all, w);
    if count == -1 {
      r := Ok(odd <= 2 && count == g.order);
      assert !(TallyBelow(g, g.order, half) <= 2);
      return;
    }
    assert Closed(g, m);
    r := Ok(odd <= 2 && count == g.order);
    ghost var ones := Ones(g.order);
    if count == g.order {
      AllMarked(marked, m, ones);
      assert m == all;
      forall v | 0 <= v < g.order
        ensures Reach(g, 0, v)
      {
        assert Fresh(marked, m, v);
      }
    } else {
      var v := Unreached(marked, m, ones);
      if Reach(g, 0, v) {
        ClosedReach(g, m, 0, v);
      }
    }
  }

  /** Counting every node marks all of them. */
  lemma {:induction false} AllMarked(a: seq<bool>, b: seq<bool>, ones: seq<nat>)
    requires |a| == |b| == |ones| && forall v :: 0 <= v < |ones| ==> ones[v] == 1
    requires Weight(a, b, ones) == |a|
    ensures forall v :: 0 <= v < |a| ==> b[v] && !a[v]
    decreases |a|
  {
    if |a| > 0 {
      var n := |a| - 1;
      WeightAtMost(a[..n], b[..n], ones[..n]);
      AllMarked(a[..n], b[..n], ones[..n]);
      assert forall v :: 0 <= v < n ==> a[v] == a[..n][v] && b[v] == b[..n][v];
    }
  }

  lemma {:induction false} WeightAtMost(a: seq<bool>, b: seq<bool>, ones: seq<nat>)
    requires |a| == |b| == |ones| && forall v :: 0 <= v < |ones| ==> ones[v] == 1
    ensures Weight(a, b, ones) <= |a|
    decreases |a|
  {
    if |a| > 0 {
      WeightAtMost(a[..|a| - 1], b[..|a| - 1], ones[..|a| - 1]);
    }
  }

  /** A count short of every node leaves some node unmarked. */
  lemma {:induction false} Unreached(a: seq<bool>, b: seq<bool>, ones: seq<nat>) returns (v: nat)
    requires |a| == |b| == |ones| && forall v :: 0 <= v < |ones| ==> ones[v] == 1
    requires forall v :: 0 <= v < |a| ==> !a[v]
    requires Weight(a, b, ones) != |a|
    ensures v < |b| && !b[v]
    decreases |a|
  {
    var n := |a| - 1;
    if !b[n] {
      return n;
    }
    assert forall u :: 0 <= u < n ==> a[..n][u] == a[u];
    v := Unreached(a[..n], b[..n], ones[..n]);
    assert b[..n][v] == b[v];
  }

  /** A triangle is a cycle through every node, each of degree 2: Eulerian,
      with no odd node. Its halved degrees add up to 3, so the code as
      written rejects it. */
  lemma TriangleHalved()
    ensures var g := Graph(3, false, [[1, 2], [0, 2], [0, 1]]);
      && Valid(g) && AllReached(g)
      && TallyBelow(g, 3, false) == 0 && TallyBelow(g, 3, true) == 3
  {
    var g := Graph(3, false, [[1, 2], [0, 2], [0, 1]]);
    assert Edge(g, 0, 1) && Edge(g, 0, 2);
    ReachRefl(g, 0);
    ReachEdge(g, 0, 1);
    ReachEdge(g, 0, 2);
    assert [1, 2][..1] == [1] && [0, 2][..1] == [0] && [0, 1][..1] == [0];
    assert [1][..0] == [] && [0][..0] == [];
    assert Occurrences([1], 0) == 0 && Occurrences([0], 1) == 0 && Occurrences([0], 2) == 0;
    assert Occurrences([1, 2], 0) == 0 && Occurrences([0, 2], 1) == 0 && Occurrences([0, 1], 2) == 0;
    assert Degree(g, 0) == 2 && Degree(g, 1) == 2 && Degree(g, 2) == 2;
  }
}
