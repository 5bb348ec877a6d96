/**
 * topological_order of graph/order.py, Kahn's algorithm: count in-degrees,
 * place the nodes of in-degree 0, then take the placed nodes in turn and
 * release their successors, placing a node once its count reaches 0. The
 * graph is reported cyclic when the scan catches up with the placed nodes
 * before all nodes are placed.
 */
module Order {
  import opened Graphs

  // ---------------------------------------------------------------------
  // The reference notions

  /** Entries of v in the lists of the nodes below k. */
  function InDegreeBelow(g: Graph, v: nat, k: nat): nat
    requires Valid(g) && k <= g.order
  {
    if k == 0 then 0 else InDegreeBelow(g, v, k - 1) + Occurrences(g.adj[k - 1], v)
  }

  /** Every entry of v in any list counts, parallel edges and loops included. */
  function InDegree(g: Graph, v: nat): nat
    requires Valid(g)
  {
    InDegreeBelow(g, v, g.order)
  }

  /** The nodes below k of in-degree 0, ascending. */
  function SourcesBelow(g: Graph, k: nat): (s: seq<nat>)
    requires Valid(g) && k <= g.order
    ensures forall i :: 0 <= i < |s| ==> s[i] < k
    ensures forall i, j :: 0 <= i < j < |s| ==> s[i] < s[j]
    ensures forall v: nat :: v in s <==> v < k && InDegree(g, v) == 0
  {
    if k == 0 then [] else SourcesBelow(g, k - 1) + (if InDegree(g, k - 1) == 0 then [k - 1] else [])
  }

  /** s lists every node once, and every edge goes from an earlier to a
      later entry. */
  ghost predicate IsTopoOrder(g: Graph, s: seq<nat>) {
    && |s| == g.order && Distinct(s)
    && (forall i :: 0 <= i < |s| ==> s[i] < g.order)
    && (forall v :: 0 <= v < g.order ==> v in s)
    && (forall i, j :: 0 <= i < |s| && 0 <= j < |s| && Edge(g, s[i], s[j]) ==> i < j)
  }

  // ---------------------------------------------------------------------
  // Edges still to be released

  /** Entries of v in the lists of the nodes below k not yet released. */
  function RemainingBelow(g: Graph, done: seq<bool>, v: nat, k: nat): nat
    requires Valid(g) && |done| == g.order && k <= g.order
  {
    if k == 0 then 0
    else RemainingBelow(g, done, v, k - 1) + (if done[k - 1] then 0 else Occurrences(g.adj[k - 1], v))
  }

  function Remaining(g: Graph, done: seq<bool>, v: nat): nat
    requires Valid(g) && |done| == g.order
  {
    RemainingBelow(g, done, v, g.order)
  }

  /** With nothing released, every edge remains. */
  lemma {:induction false} RemainingAll(g: Graph, done: seq<bool>, v: nat, k: nat)
    requires Valid(g) && |done| == g.order && k <= g.order
    requires forall u :: 0 <= u < g.order ==> !done[u]
    ensures RemainingBelow(g, done, v, k) == InDegreeBelow(g, v, k)
  {
    if k > 0 {
      RemainingAll(g, done, v, k - 1);
    }
  }

  /** Releasing x removes exactly x's entries of v. */
  lemma {:induction false} RemainingRelease(g: Graph, done: seq<bool>, x: nat, v: nat, k: nat)
    requires Valid(g) && |done| == g.order && k <= g.order && x < g.order && !done[x]
    ensures RemainingBelow(g, done, v, k)
      == RemainingBelow(g, done[x := true], v, k) + (if x < k then Occurrences(g.adj[x], v) else 0)
  {
    if k > 0 {
      RemainingRelease(g, done, x, v, k - 1);
    }
  }

  /** An unreleased node with an edge into v leaves v a remaining edge. */
  lemma {:induction false} RemainingEdge(g: Graph, done: seq<bool>, u: nat, v: nat, k: nat)
    requires Valid(g) && |done| == g.order && k <= g.order && u < k && !done[u] && v in g.adj[u]
    ensures RemainingBelow(g, done, v, k) >= 1
  {
    if u < k - 1 {
      RemainingEdge(g, done, u, v, k - 1);
    } else {
      OccurrencesMember(g.adj[u], v);
    }
  }

  /** A remaining edge into v comes from some unreleased node. */
  lemma {:induction false} RemainingSource(g: Graph, done: seq<bool>, v: nat, k: nat) returns (u: nat)
    requires Valid(g) && |done| == g.order && k <= g.order && RemainingBelow(g, done, v, k) > 0
    ensures u < k && !done[u] && Edge(g, u, v)
  {
    if RemainingBelow(g, done, v, k - 1) > 0 {
      u := RemainingSource(g, done, v, k - 1);
    } else {
      u := k - 1;
      OccurrencesPositive(g.adj[u], v);
    }
  }

  // ---------------------------------------------------------------------
  // One expansion, entry by entry

  /** The counts after lowering, in turn, the count of each entry of s. */
  function Lowered(degrees: seq<int>, s: seq<nat>): (d: seq<int>)
    ensures |d| == |degrees|
  {
    if s == [] then degrees
    else
      var d := Lowered(degrees, s[..|s| - 1]);
      var v := s[|s| - 1];
      if v < |d| then d[v := d[v] - 1] else d
  }

  /** The entries of s whose count, lowered entry by entry from `degrees`,
      reaches 0 at that entry, in the order of s. */
  function Freed(degrees: seq<int>, s: seq<nat>): seq<nat>
  {
    if s == [] then []
    else
      var d := Lowered(degrees, s[..|s| - 1]);
      var v := s[|s| - 1];
      Freed(degrees, s[..|s| - 1]) + (if v < |d| && d[v] - 1 == 0 then [v] else [])
  }

  /** A walk one entry longer lowers and frees by that entry. */
  lemma WalkStep(degrees: seq<int>, s: seq<nat>, k: nat)
    requires k < |s|
    ensures var d := Lowered(degrees, s[..k]);
      && Lowered(degrees, s[..k + 1]) == (if s[k] < |d| then d[s[k] := d[s[k]] - 1] else d)
      && Freed(degrees, s[..k + 1]) == Freed(degrees, s[..k]) + (if s[k] < |d| && d[s[k]] - 1 == 0 then [s[k]] else [])
  {
    assert s[..k + 1][..k] == s[..k];
  }

  // ---------------------------------------------------------------------
  // The algorithm

  /** Every edge into a listed node comes from a node listed earlier. */
  ghost predicate Before(g: Graph, nodes: seq<nat>) {
    forall j, u :: 0 <= j < |nodes| && Edge(g, u, nodes[j]) ==> u in nodes[..j]
  }

  /** A node all of whose predecessors are listed may be appended. */
  lemma BeforeAppend(g: Graph, nodes: seq<nat>, v: nat)
    requires Before(g, nodes) && forall u: nat :: Edge(g, u, v) ==> u in nodes
    ensures Before(g, nodes + [v])
  {
    var t := nodes + [v];
    forall j, u | 0 <= j < |t| && Edge(g, u, t[j])
      ensures u in t[..j]
    {
      if j < |nodes| {
        assert t[..j] == nodes[..j];
      } else {
        assert t[..j] == nodes;
      }
    }
  }

  /** The state between two scan steps: the placed nodes are distinct; the
      first index of them are released; each count is the number of
      unreleased edges into its node; a node is placed exactly when its
      count is 0; every edge into a placed node comes from an earlier one. */
  ghost predicate Kahn(g: Graph, degrees: seq<int>, nodes: seq<nat>, done: seq<bool>, index: nat)
    requires Valid(g)
  {
    && |degrees| == g.order && |done| == g.order && index <= |nodes| <= g.order
    && Distinct(nodes) && (forall i :: 0 <= i < |nodes| ==> nodes[i] < g.order)
    && (forall u :: 0 <= u < g.order ==> (done[u] <==> u in nodes[..index]))
    && (forall v :: 0 <= v < g.order ==> degrees[v] == Remaining(g, done, v))
    && (forall v :: 0 <= v < g.order ==> (v in nodes <==> degrees[v] == 0))
    && Before(g, nodes)
  }

  /** The state inside a scan step, after the first k entries of x's list:
      the counts miss exactly those entries, and the placed nodes still
      keep every edge forward. */
  ghost predicate Releasing(g: Graph, done: seq<bool>, x: nat, k: nat, degrees: seq<int>, nodes: seq<nat>)
    requires Valid(g) && |done| == g.order && x < g.order
  {
    && k <= |g.adj[x]| && |degrees| == g.order && |nodes| <= g.order
    && Distinct(nodes) && (forall i :: 0 <= i < |nodes| ==> nodes[i] < g.order)
    && (forall v :: 0 <= v < g.order ==> degrees[v] + Occurrences(g.adj[x][..k], v) == Remaining(g, done, v))
    && (forall v :: 0 <= v < g.order ==> (v in nodes <==> degrees[v] == 0))
    && Before(g, nodes)
  }

  /** No remaining edge into v: every predecessor of v is released. */
  lemma Cleared(g: Graph, done: seq<bool>, v: nat)
    requires Valid(g) && |done| == g.order && Remaining(g, done, v) == 0
    ensures forall u: nat :: Edge(g, u, v) ==> done[u]
  {
    forall u: nat | Edge(g, u, v)
      ensures done[u]
    {
      if !done[u] {
        RemainingEdge(g, done, u, v, g.order);
      }
    }
  }

  /** Lowering the count of the k-th successor of x, and placing it when the
      count reaches 0 (graph/order.py:27-30), keeps the step's state. */
  method Lower(g: Graph, ghost done: seq<bool>, ghost placed: seq<nat>, x: nat, k: nat, degrees: seq<int>, nodes: seq<nat>,
               ghost degrees0: seq<int>, ghost nodes0: seq<nat>)
    returns (degrees': seq<int>, nodes': seq<nat>)
    requires Valid(g) && |done| == g.order && x < g.order && !done[x] && k < |g.adj[x]|
    requires forall u :: 0 <= u < g.order && done[u] ==> u in placed
    requires x in placed && |placed| <= |nodes| && nodes[..|placed|] == placed
    requires Releasing(g, done, x, k, degrees, nodes)
    requires degrees == Lowered(degrees0, g.adj[x][..k]) && nodes == nodes0 + Freed(degrees0, g.adj[x][..k])
    ensures Releasing(g, done, x, k + 1, degrees', nodes')
    ensures degrees' == Lowered(degrees0, g.adj[x][..k + 1]) && nodes' == nodes0 + Freed(degrees0, g.adj[x][..k + 1])
  {
    WalkStep(degrees0, g.adj[x], k);
    var neigh := g.adj[x][k];
    OccurrencesPrefix(g.adj[x], k, neigh);
    OccurrencesMono(g.adj[x], k + 1, neigh);
    RemainingRelease(g, done, x, neigh, g.order);
    forall v | 0 <= v < g.order && v != neigh
      ensures Occurrences(g.adj[x][..k + 1], v) == Occurrences(g.adj[x][..k], v)
    {
      OccurrencesPrefix(g.adj[x], k, v);
    }
    degrees' := degrees[neigh := degrees[neigh] - 1];
    nodes' := nodes;
    if degrees'[neigh] == 0 {
      Cleared(g, done[x := true], neigh);
      forall u: nat | Edge(g, u, neigh)
        ensures u in nodes
      {
        assert u in placed;
        assert nodes[..|placed|] == placed;
      }
      BeforeAppend(g, nodes, neigh);
      nodes' := nodes + [neigh];
      DistinctLength(nodes', g.order);
    }
  }

  /** One step of the scan (graph/order.py:26-31): each list entry of the
      node at index lowers its successor's count, and a successor whose
      count reaches 0 is placed. */
  method Release(g: Graph, degrees: seq<int>, nodes: seq<nat>, ghost done: seq<bool>, index: nat)
    returns (degrees': seq<int>, nodes': seq<nat>)
    requires Valid(g) && Kahn(g, degrees, nodes, done, index) && index < |nodes|
    ensures Kahn(g, degrees', nodes', done[nodes[index] := true], index + 1)
    ensures degrees' == Lowered(degrees, g.adj[nodes[index]])
    ensures nodes' == nodes + Freed(degrees, g.adj[nodes[index]])
  {
    var x := nodes[index];
    ghost var placed := nodes[..index + 1];
    assert placed == nodes[..index] + [x];
    degrees', nodes' := degrees, nodes;
    var k := 0;
    assert g.adj[x][..0] == [];
    while k < |g.adj[x]|
      invariant Releasing(g, done, x, k, degrees', nodes')
      invariant degrees' == Lowered(degrees, g.adj[x][..k]) && nodes' == nodes + Freed(degrees, g.adj[x][..k])
    {
      degrees', nodes' := Lower(g, done, placed, x, k, degrees', nodes', degrees, nodes);
      k := k + 1;
    }
    assert g.adj[x][..k] == g.adj[x];
    ghost var done' := done[x := true];
    forall v | 0 <= v < g.order
      ensures degrees'[v] == Remaining(g, done', v)
    {
      RemainingRelease(g, done, x, v, g.order);
    }
    forall u | 0 <= u < g.order
      ensures done'[u] <==> u in nodes'[..index + 1]
    {
      assert nodes'[..index + 1] == placed;
    }
  }

  /** Fewer placed nodes than nodes, all of them released: some unplaced
      node exists, and each has an unplaced predecessor, so no
      topological order exists. */
  lemma Stuck(g: Graph, degrees: seq<int>, nodes: seq<nat>, done: seq<bool>)
    requires Valid(g) && Kahn(g, degrees, nodes, done, |nodes|) && |nodes| < g.order
    ensures forall s :: !IsTopoOrder(g, s)
  {
    var v0 := Missing(nodes, g.order);
    assert nodes[..|nodes|] == nodes;
    forall s
      ensures !IsTopoOrder(g, s)
    {
      NoOrder(g, done, nodes, s, v0);
    }
  }

  /** The first entry of s outside `placed`, given that v0 is one. */
  lemma FirstOutside(s: seq<nat>, placed: seq<nat>, v0: nat) returns (i: nat)
    requires v0 in s && v0 !in placed
    ensures i < |s| && s[i] !in placed && forall k :: 0 <= k < i ==> s[k] in placed
  {
    var p := IndexIn(s, v0);
    i := 0;
    while s[i] in placed
      invariant i <= p && forall k :: 0 <= k < i ==> s[k] in placed
      decreases p - i
    {
      i := i + 1;
    }
  }

  /** When the released nodes are those of `placed`, some node is not
      among them, and every node outside `placed` has an edge remaining,
      no order puts every edge forward: the first node outside `placed` in
      the order would have an unreleased predecessor earlier. */
  lemma NoOrder(g: Graph, done: seq<bool>, placed: seq<nat>, s: seq<nat>, v0: nat)
    requires Valid(g) && |done| == g.order && v0 < g.order && v0 !in placed
    requires forall u :: 0 <= u < g.order ==> (done[u] <==> u in placed)
    requires forall v :: 0 <= v < g.order && v !in placed ==> Remaining(g, done, v) > 0
    ensures !IsTopoOrder(g, s)
  {
    if IsTopoOrder(g, s) {
      var i := FirstOutside(s, placed, v0);
      var u := RemainingSource(g, done, s[i], g.order);
      var j := IndexIn(s, u);
    }
  }

  /** An edge into v counts towards v's in-degree. */
  lemma InDegreeEdge(g: Graph, u: nat, v: nat)
    requires Valid(g) && Edge(g, u, v)
    ensures InDegree(g, v) >= 1
  {
    var none := seq(g.order, _ => false);
    RemainingAll(g, none, v, g.order);
    RemainingEdge(g, none, u, v, g.order);
  }

  /** A node of in-degree 0 has no predecessor. */
  lemma Sourceless(g: Graph, v: nat)
    requires Valid(g) && InDegree(g, v) == 0
    ensures forall u: nat :: !Edge(g, u, v)
  {
    forall u: nat
      ensures !Edge(g, u, v)
    {
      if Edge(g, u, v) {
        InDegreeEdge(g, u, v);
      }
    }
  }

  /** The in-degree count (graph/order.py:9-12). */
  method InDegrees(g: Graph) returns (degrees: seq<int>)
    requires Valid(g)
    ensures |degrees| == g.order && forall v :: 0 <= v < g.order ==> degrees[v] == InDegree(g, v)
  {
    degrees := seq(g.order, _ => 0);
    var node := 0;
    while node < g.order
      invariant node <= g.order && |degrees| == g.order
      invariant forall v :: 0 <= v < g.order ==> degrees[v] == InDegreeBelow(g, v, node)
    {
      var k := 0;
      while k < |g.adj[node]|
        invariant k <= |g.adj[node]| && |degrees| == g.order
        invariant forall v :: 0 <= v < g.order ==>
          degrees[v] == InDegreeBelow(g, v, node) + Occurrences(g.adj[node][..k], v)
      {
        var neigh := g.adj[node][k];
        forall v | 0 <= v < g.order
          ensures Occurrences(g.adj[node][..k + 1], v) == Occurrences(g.adj[node][..k], v) + (if v == neigh then 1 else 0)
        {
          OccurrencesPrefix(g.adj[node], k, v);
        }
        degrees := degrees[neigh := degrees[neigh] + 1];
        k := k + 1;
      }
      assert g.adj[node][..k] == g.adj[node];
      node := node + 1;
    }
  }

  /** The initial list (graph/order.py:15-19): the nodes of count 0,
      ascending. `capacity` is the length of the list. */
  method Sources(g: Graph, degrees: seq<int>) returns (nodes: seq<nat>)
    requires Valid(g) && |degrees| == g.order && forall v :: 0 <= v < g.order ==> degrees[v] == InDegree(g, v)
    ensures nodes == SourcesBelow(g, g.order)
  {
    nodes := [];
    var node := 0;
    while node < g.order
      invariant node <= g.order && nodes == SourcesBelow(g, node)
    {
      if degrees[node] == 0 {
        nodes := nodes + [node];
      }
      node := node + 1;
    }
  }

  /** The state before the scan: nothing released, and the sources listed
      satisfy it. */
  lemma Start(g: Graph, degrees: seq<int>, nodes: seq<nat>)
    requires Valid(g) && |degrees| == g.order && forall v :: 0 <= v < g.order ==> degrees[v] == InDegree(g, v)
    requires nodes == SourcesBelow(g, g.order)
    ensures Kahn(g, degrees, nodes, seq(g.order, _ => false), 0)
  {
    var done := seq(g.order, _ => false);
    forall v | 0 <= v < g.order
      ensures degrees[v] == Remaining(g, done, v)
    {
      RemainingAll(g, done, v, g.order);
    }
    forall j | 0 <= j < |nodes|
      ensures forall u: nat :: !Edge(g, u, nodes[j])
    {
      Sourceless(g, nodes[j]);
    }
    forall i, j | 0 <= i < j < |nodes| ensures nodes[i] != nodes[j] {
    }
    DistinctLength(nodes, g.order);
  }

  /** topological_order (graph/order.py:2-33). On success the result lists
      the nodes of in-degree 0 first, ascending, and is a topological order;
      "Graph is cyclic" is raised exactly when no topological order exists. */
  method TopologicalOrder(g: Graph) returns (r: Result<seq<nat>>)
    requires Valid(g)
    ensures r.Ok? ==> IsTopoOrder(g, r.value)
    ensures r.Ok? ==> (|SourcesBelow(g, g.order)| <= |r.value|
      && r.value[..|SourcesBelow(g, g.order)|] == SourcesBelow(g, g.order))
    ensures r.Err? ==> r.error == Cyclic && forall s :: !IsTopoOrder(g, s)
  {
    var degrees := InDegrees(g);
    var nodes := Sources(g, degrees);
    ghost var sources := nodes;
    ghost var done := seq(g.order, _ => false);
    Start(g, degrees, nodes);

    // Insert other nodes by expanding from the placed ones (graph/order.py:22-31)
    var index := 0;
    while |nodes| < g.order
      invariant Kahn(g, degrees, nodes, done, index)
      invariant |sources| <= |nodes| && nodes[..|sources|] == sources
      decreases g.order - index
    {
      if index == |nodes| {
        Stuck(g, degrees, nodes, done);
        return Err(Cyclic);
      }
      ghost var before := nodes;
      degrees, nodes := Release(g, degrees, nodes, done, index);
      done := done[before[index] := true];
      assert nodes[..|sources|] == nodes[..|before|][..|sources|];
      index := index + 1;
    }
    Complete(g, degrees, nodes, done, index);
    return Ok(nodes);
  }

  /** All nodes placed: the list is a topological order. */
  lemma Complete(g: Graph, degrees: seq<int>, nodes: seq<nat>, done: seq<bool>, index: nat)
    requires Valid(g) && Kahn(g, degrees, nodes, done, index) && |nodes| >= g.order
    ensures IsTopoOrder(g, nodes)
  {
    forall v | 0 <= v < g.order
      ensures v in nodes
    {
      if v !in nodes {
        DistinctMissing(nodes, g.order, v);
      }
    }
    forall i, j | 0 <= i < |nodes| && 0 <= j < |nodes| && Edge(g, nodes[i], nodes[j])
      ensures i < j
    {
      var k := IndexIn(nodes[..j], nodes[i]);
      assert nodes[k] == nodes[i];
    }
  }
}
