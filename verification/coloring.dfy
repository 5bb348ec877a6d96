/**
 * is_colored_nicely of graph/colored.py: gather each node's neighbours in
 * both directions into a set, then reject the coloring as soon as a node
 * shares its color with one of them.
 *
 * graph/colored.py:7 builds the list of sets as `[set()] * order`, one set
 * object shared by every node, so every node is checked against every
 * endpoint of every edge. The comment at :6 asks for the set of each node's
 * neighbours; IsColoredNicely keeps one set per node, and
 * IsColoredNicelyAsWritten models the shared set.
 */
module Coloring {
  import opened Graphs

  /** Every endpoint of every edge has a color. */
  ghost predicate Colored(g: Graph, color: seq<int>)
    requires Valid(g)
  {
    forall u, i :: 0 <= u < g.order && 0 <= i < |g.adj[u]| ==> u < |color| && g.adj[u][i] < |color|
  }

  /** Some edge, in whichever list it is stored, joins two nodes of one color. */
  ghost predicate Clash(g: Graph, color: seq<int>)
    requires Valid(g)
  {
    exists u, i :: 0 <= u < g.order && 0 <= i < |g.adj[u]| && u < |color| && g.adj[u][i] < |color|
      && color[u] == color[g.adj[u][i]]
  }

  /** x and y both have a color, and not the same one. */
  predicate Differ(color: seq<int>, x: nat, y: nat) {
    x < |color| && y < |color| && color[x] != color[y]
  }

  /** Every node y in x's set differs from x in color. */
  ghost predicate Apart(nb: seq<set<nat>>, color: seq<int>) {
    forall x: nat, y: nat :: x < |nb| && y in nb[x] ==> Differ(color, x, y)
  }

  /** The edge a->b is among those gathered once the lists of the nodes
      below `node`, and the first i entries of node's list, are read. */
  ghost predicate Gathered(g: Graph, node: nat, i: nat, a: nat, b: nat)
    requires Valid(g) && node <= g.order && (node < g.order ==> i <= |g.adj[node]|)
  {
    || (a < node && b in g.adj[a])
    || (a == node < g.order && b in g.adj[a][..i])
  }

  /** The first loop (graph/colored.py:8-11): y ends up in x's set exactly
      when an edge joins x and y in either direction. */
  method Neighbours(g: Graph) returns (nb: seq<set<nat>>)
    requires Valid(g)
    ensures |nb| == g.order
    ensures forall x: nat, y: nat :: x < g.order ==>
      (y in nb[x] <==> y < g.order && (Edge(g, x, y) || Edge(g, y, x)))
  {
    // One set per node (graph/colored.py:7 shares a single set).
    nb := seq(g.order, _ => {});
    var node := 0;
    while node < g.order
      invariant node <= g.order && |nb| == g.order
      invariant forall x: nat, y: nat :: x < g.order ==>
        (y in nb[x] <==> y < g.order && (Gathered(g, node, 0, x, y) || Gathered(g, node, 0, y, x)))
    {
      var i := 0;
      while i < |g.adj[node]|
        invariant i <= |g.adj[node]| && |nb| == g.order
        invariant forall x: nat, y: nat :: x < g.order ==>
          (y in nb[x] <==> y < g.order && (Gathered(g, node, i, x, y) || Gathered(g, node, i, y, x)))
      {
        var neigh := g.adj[node][i];
        assert g.adj[node][..i + 1] == g.adj[node][..i] + [neigh];
        nb := nb[neigh := nb[neigh] + {node}];
        nb := nb[node := nb[node] + {neigh}];
        i := i + 1;
      }
      assert g.adj[node][..i] == g.adj[node];
      node := node + 1;
    }
  }

  /** The second loop (graph/colored.py:14-17), over whatever sets the first
      loop built: it stops with False at the first node whose set holds a
      node of its color, and raises IndexError at the first subscript past
      the end of color. A set is read in no particular order, so which of
      the two comes first is left open. */
  method Check(nb: seq<set<nat>>, color: seq<int>) returns (r: Result<bool>)
    ensures r == Ok(true) <==> Apart(nb, color)
    ensures r == Ok(false) ==>
      exists x: nat, y: nat :: x < |nb| && y in nb[x] && x < |color| && y < |color| && color[x] == color[y]
    ensures r.Err? ==>
      && r.error == IndexOutOfRange
      && exists x: nat, y: nat :: x < |nb| && y in nb[x] && (x >= |color| || y >= |color|)
  {
    var node := 0;
    while node < |nb|
      invariant node <= |nb|
      invariant forall x: nat, y: nat :: x < node && y in nb[x] ==> Differ(color, x, y)
    {
      var rest := nb[node];
      while rest != {}
        invariant rest <= nb[node]
        invariant forall y: nat :: y in nb[node] && y !in rest ==> Differ(color, node, y)
        decreases |rest|
      {
        var neigh :| neigh in rest;
        if neigh >= |color| || node >= |color| {
          return Err(IndexOutOfRange);
        }
        if color[neigh] == color[node] {
          return Ok(false);
        }
        rest := rest - {neigh};
      }
      node := node + 1;
    }
    return Ok(true);
  }

  /** nb[x] holds exactly the nodes joined to x by an edge either way. */
  ghost predicate EdgeSets(g: Graph, nb: seq<set<nat>>)
    requires Valid(g)
  {
    && |nb| == g.order
    && forall x: nat, y: nat :: x < g.order ==>
      (y in nb[x] <==> y < g.order && (Edge(g, x, y) || Edge(g, y, x)))
  }

  /** Read through Neighbours, the sets' verdicts are the edges' verdicts. */
  lemma NeighbourPairs(g: Graph, nb: seq<set<nat>>, color: seq<int>)
    requires Valid(g) && EdgeSets(g, nb)
    ensures Apart(nb, color) <==> Colored(g, color) && !Clash(g, color)
    ensures (exists x: nat, y: nat :: x < |nb| && y in nb[x] && x < |color| && y < |color| && color[x] == color[y])
      ==> Clash(g, color)
    ensures (exists x: nat, y: nat :: x < |nb| && y in nb[x] && (x >= |color| || y >= |color|))
      ==> !Colored(g, color)
  {
    if Apart(nb, color) {
      ApartEdges(g, nb, color);
    }
    if Colored(g, color) && !Clash(g, color) {
      EdgesApart(g, nb, color);
    }
    if x: nat, y: nat :| x < |nb| && y in nb[x] && x < |color| && y < |color| && color[x] == color[y] {
      PairEdge(g, nb, x, y);
    }
    if x: nat, y: nat :| x < |nb| && y in nb[x] && (x >= |color| || y >= |color|) {
      PairEdge(g, nb, x, y);
    }
  }

  /** Sets apart in color mean every edge has colored, differing ends. */
  lemma ApartEdges(g: Graph, nb: seq<set<nat>>, color: seq<int>)
    requires Valid(g) && EdgeSets(g, nb) && Apart(nb, color)
    ensures Colored(g, color) && !Clash(g, color)
  {
    forall u: nat, i: nat | u < g.order && i < |g.adj[u]|
      ensures Differ(color, u, g.adj[u][i])
    {
      EdgeInSets(g, nb, u, i);
    }
    EdgesColored(g, color);
    EdgesNoClash(g, color);
  }

  /** Edges with differing colored ends leave every endpoint colored. */
  lemma EdgesColored(g: Graph, color: seq<int>)
    requires Valid(g)
    requires forall u: nat, i: nat :: u < g.order && i < |g.adj[u]| ==> Differ(color, u, g.adj[u][i])
    ensures Colored(g, color)
  {
    forall u | 0 <= u < g.order && |g.adj[u]| > 0 ensures u < |color| {
      assert Differ(color, u, g.adj[u][0]);
    }
  }

  /** Edges with differing colored ends leave no clash. */
  lemma EdgesNoClash(g: Graph, color: seq<int>)
    requires Valid(g)
    requires forall u: nat, i: nat :: u < g.order && i < |g.adj[u]| ==> Differ(color, u, g.adj[u][i])
    ensures !Clash(g, color)
  {
  }

  /** An entry of u's list is in u's set. */
  lemma EdgeInSets(g: Graph, nb: seq<set<nat>>, u: nat, i: nat)
    requires Valid(g) && EdgeSets(g, nb) && u < g.order && i < |g.adj[u]|
    ensures g.adj[u][i] in nb[u]
  {
    assert Edge(g, u, g.adj[u][i]);
  }

  /** Edges with colored, differing ends mean the sets are apart in color. */
  lemma EdgesApart(g: Graph, nb: seq<set<nat>>, color: seq<int>)
    requires Valid(g) && EdgeSets(g, nb) && Colored(g, color) && !Clash(g, color)
    ensures Apart(nb, color)
  {
    forall x: nat, y: nat | x < |nb| && y in nb[x]
      ensures Differ(color, x, y)
    {
      PairEdge(g, nb, x, y);
    }
  }

  /** A pair in the sets is an edge stored under one of its ends. */
  lemma PairEdge(g: Graph, nb: seq<set<nat>>, x: nat, y: nat)
    requires Valid(g) && EdgeSets(g, nb) && x < |nb| && y in nb[x]
    ensures || (exists i :: 0 <= i < |g.adj[x]| && g.adj[x][i] == y)
            || (exists i :: 0 <= i < |g.adj[y]| && g.adj[y][i] == x)
  {
    if Edge(g, x, y) {
      var i :| 0 <= i < |g.adj[x]| && g.adj[x][i] == y;
    } else {
      var i :| 0 <= i < |g.adj[y]| && g.adj[y][i] == x;
    }
  }

  /** is_colored_nicely (graph/colored.py:1-19), with one set per node. When
      every endpoint of an edge has a color, the answer is whether no edge
      joins two nodes of one color; otherwise IndexError is raised, unless
      a clash is met first. Colors beyond the last node are never read. */
  method IsColoredNicely(g: Graph, color: seq<int>) returns (r: Result<bool>)
    requires Valid(g)
    ensures Colored(g, color) ==> r == Ok(!Clash(g, color))
    ensures !Colored(g, color) ==> r == Err(IndexOutOfRange) || (r == Ok(false) && Clash(g, color))
    ensures |color| >= g.order ==> r.Ok?
    ensures (exists u :: 0 <= u < g.order && u < |color| && u in g.adj[u]) ==> r != Ok(true)
  {
    var nb := Neighbours(g);
    r := Check(nb, color);
    NeighbourPairs(g, nb, color);
    if |color| >= g.order {
      assert Colored(g, color);
    }
    if Colored(g, color) {
      assert !r.Err?;
      if r == Ok(true) {
        assert Apart(nb, color);
        assert !Clash(g, color);
      } else {
        assert r.Ok? && !r.value;
        assert Clash(g, color);
      }
    } else if r.Ok? {
      assert !Apart(nb, color);
      assert r.Ok? && !r.value;
    }
    if u :| 0 <= u < g.order && u < |color| && u in g.adj[u] {
      var i :| 0 <= i < |g.adj[u]| && g.adj[u][i] == u;
      assert Clash(g, color);
    }
  }

  /** y is an endpoint of some edge: its own list is not empty, or some
      list holds it. */
  ghost predicate Endpoint(g: Graph, y: nat)
    requires Valid(g)
  {
    y < g.order && (g.adj[y] != [] || exists a :: 0 <= a < g.order && y in g.adj[a])
  }

  /** y is an endpoint of an edge stored in the list of a node below `node`,
      or among the first i entries of node's list. */
  ghost predicate EndpointBefore(g: Graph, node: nat, i: nat, y: nat)
    requires Valid(g) && node <= g.order && (node < g.order ==> i <= |g.adj[node]|)
  {
    || (y < node && g.adj[y] != [])
    || (y == node < g.order && i > 0)
    || (exists a :: 0 <= a < node && y in g.adj[a])
    || (node < g.order && y in g.adj[node][..i])
  }

  /** The first loop with the single shared set of graph/colored.py:7: it
      ends up holding every endpoint of every edge, for every node. */
  method SharedNeighbours(g: Graph) returns (nb: seq<set<nat>>)
    requires Valid(g)
    ensures |nb| == g.order
    ensures forall x: nat, y: nat :: x < g.order ==> (y in nb[x] <==> Endpoint(g, y))
  {
    var shared: set<nat> := {};
    var node := 0;
    while node < g.order
      invariant node <= g.order
      invariant forall y: nat :: y in shared <==> EndpointBefore(g, node, 0, y)
    {
      var i := 0;
      while i < |g.adj[node]|
        invariant i <= |g.adj[node]|
        invariant forall y: nat :: y in shared <==> EndpointBefore(g, node, i, y)
      {
        var neigh := g.adj[node][i];
        assert g.adj[node][..i + 1] == g.adj[node][..i] + [neigh];
        shared := shared + {node} + {neigh};
        i := i + 1;
      }
      assert g.adj[node][..i] == g.adj[node];
      forall y: nat
        ensures EndpointBefore(g, node + 1, 0, y) <==> EndpointBefore(g, node, i, y)
      {
        if a :| 0 <= a < node + 1 && y in g.adj[a] {
          if a < node {
            assert exists a :: 0 <= a < node && y in g.adj[a];
          }
        }
        if a :| 0 <= a < node && y in g.adj[a] {
          assert exists a :: 0 <= a < node + 1 && y in g.adj[a];
        }
        if y in g.adj[node] {
          assert exists a :: 0 <= a < node + 1 && y in g.adj[a];
        }
      }
      node := node + 1;
    }
    forall y: nat
      ensures EndpointBefore(g, node, 0, y) <==> Endpoint(g, y)
    {
      if a :| 0 <= a < g.order && y in g.adj[a] {
        var j :| 0 <= j < |g.adj[a]| && g.adj[a][j] == y;
      }
    }
    nb := seq(g.order, _ => shared);
  }

  /** is_colored_nicely exactly as written: every node is checked against
      every endpoint of every edge, itself included once it has an edge. So
      the answer is True exactly when the graph has no edge, and a full
      color list turns every edge into False. */
  method IsColoredNicelyAsWritten(g: Graph, color: seq<int>) returns (r: Result<bool>)
    requires Valid(g)
    ensures r == Ok(true) <==> forall u :: 0 <= u < g.order ==> g.adj[u] == []
    ensures |color| >= g.order ==> r.Ok?
  {
    var nb := SharedNeighbours(g);
    r := Check(nb, color);
    if |color| >= g.order {
      forall x: nat, y: nat | x < |nb| && y in nb[x]
        ensures x < |color| && y < |color|
      {
        assert Endpoint(g, y);
      }
    }
    if u :| 0 <= u < g.order && g.adj[u] != [] {
      assert Endpoint(g, u);
      assert u in nb[u];
    } else {
      forall y: nat
        ensures !Endpoint(g, y)
      {
        forall a | 0 <= a < g.order
          ensures y !in g.adj[a]
        {
          assert g.adj[a] == [];
        }
      }
      forall x: nat, y: nat | x < |nb|
        ensures y !in nb[x]
      {
        assert !Endpoint(g, y);
      }
      assert Apart(nb, color);
    }
  }

  /** One edge 0-1 and two colors: a nice coloring, which the code as written
      rejects because the graph has an edge. */
  lemma TwoColors()
    ensures var g := Graph(2, false, [[1], [0]]);
      && Valid(g) && Colored(g, [0, 1]) && !Clash(g, [0, 1]) && g.adj[0] != []
  {
  }
}
