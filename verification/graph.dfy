/**
 * The adjacency-list graph of graph/__init__.py: nodes are 0 .. order-1, and
 * node u's neighbours are listed, in insertion order and with repetitions, in
 * adj[u]. Edge costs and node labels are payload the algorithms never read, so
 * the model leaves them out.
 */
module Graphs {

  /** The failures the source reports by raising an exception. */
  datatype GraphError =
    | InvalidSrc       // IndexError("Invalid src index") from add_edge / remove_edge
    | InvalidDst       // IndexError("Invalid dst index") from add_edge / remove_edge
    | IndexOutOfRange  // an IndexError raised by subscripting a per-node list
    | MissingReverse   // ValueError from list.remove when an undirected edge is stored one way only
    | Cyclic           // Exception("Graph is cyclic") from topological_order
    | NoAttribute      // AttributeError: a method called on an object that lacks it

  datatype Result<T> = Ok(value: T) | Err(error: GraphError)

  datatype Graph = Graph(order: nat, directed: bool, adj: seq<seq<nat>>)

  /** One adjacency list per node, and every stored neighbour is a node. */
  predicate Valid(g: Graph) {
    && |g.adj| == g.order
    && forall u, i :: 0 <= u < |g.adj| && 0 <= i < |g.adj[u]| ==> g.adj[u][i] < g.order
  }

  /** In an undirected graph a non-loop edge u-v is stored once in each list:
      v occurs in u's list exactly as often as u occurs in v's. */
  ghost predicate Symmetric(g: Graph)
    requires Valid(g)
  {
    !g.directed ==>
      forall u, v :: 0 <= u < g.order && 0 <= v < g.order && u != v ==>
        multiset(g.adj[u])[v] == multiset(g.adj[v])[u]
  }

  /** Graph(order, directed) (graph/__init__.py:35-55): order empty lists. */
  function NewGraph(order: nat, directed: bool): (g: Graph)
    ensures Valid(g) && Symmetric(g)
    ensures g.order == order && g.directed == directed
    ensures forall u :: 0 <= u < order ==> g.adj[u] == []
  {
    Graph(order, directed, seq(order, _ => []))
  }

  /** add_edge (graph/__init__.py:58-79): range checks first, src before dst;
      then dst is appended to src's list, and src to dst's list when the graph
      is undirected and the edge is not a loop. */
  function AddEdge(g: Graph, src: int, dst: int): (r: Result<Graph>)
    requires Valid(g)
    ensures !(0 <= src < g.order) ==> r == Err(InvalidSrc)
    ensures 0 <= src < g.order && !(0 <= dst < g.order) ==> r == Err(InvalidDst)
    ensures 0 <= src < g.order && 0 <= dst < g.order ==>
      && r.Ok?
      && r.value.order == g.order && r.value.directed == g.directed
      && |r.value.adj| == |g.adj|
      && r.value.adj[src] == g.adj[src] + [dst]
      && (!g.directed && dst != src ==> r.value.adj[dst] == g.adj[dst] + [src])
      && (forall u :: 0 <= u < g.order && u != src && (g.directed || u != dst) ==>
            r.value.adj[u] == g.adj[u])
    ensures r.Ok? ==> Valid(r.value) && (Symmetric(g) ==> Symmetric(r.value))
  {
    if !(0 <= src < g.order) then Err(InvalidSrc)
    else if !(0 <= dst < g.order) then Err(InvalidDst)
    else
      var h1 := Append(g, src, dst);
      if !g.directed && dst != src then
        var h := Append(h1, dst, src);
        AddEdgeSymmetric(g, src, dst);
        Ok(h)
      else
        AddLoopSymmetric(g, src, dst);
        Ok(h1)
  }

  /** Appends x to u's list. */
  function Append(g: Graph, u: nat, x: nat): (r: Graph)
    requires Valid(g) && u < g.order && x < g.order
    ensures Valid(r) && r.order == g.order && r.directed == g.directed
    ensures r.adj == g.adj[u := g.adj[u] + [x]]
  {
    var r := g.(adj := g.adj[u := g.adj[u] + [x]]);
    assert forall v, i :: 0 <= v < |r.adj| && 0 <= i < |r.adj[v]| ==> r.adj[v][i] < r.order by {
      forall v, i | 0 <= v < |r.adj| && 0 <= i < |r.adj[v]|
        ensures r.adj[v][i] < r.order
      {
        if v == u && i == |g.adj[u]| { } else { assert r.adj[v][i] == g.adj[v][i]; }
      }
    }
    r
  }

  lemma AddEdgeSymmetric(g: Graph, src: nat, dst: nat)
    requires Valid(g) && src < g.order && dst < g.order && src != dst
    ensures Symmetric(g) ==> Symmetric(Append(Append(g, src, dst), dst, src))
  {
    var h := Append(Append(g, src, dst), dst, src);
    if Symmetric(g) && !g.directed {
      forall u, v | 0 <= u < g.order && 0 <= v < g.order && u != v
        ensures multiset(h.adj[u])[v] == multiset(h.adj[v])[u]
      {
        assert multiset(g.adj[u])[v] == multiset(g.adj[v])[u];
        AddPair(g.adj[u], g.adj[v], h.adj[u], h.adj[v], u, v, src, dst);
      }
    }
  }

  /** Counting v in u's list and u in v's list after src and dst are added
      to each other's lists. */
  lemma AddPair(su: seq<nat>, sv: seq<nat>, tu: seq<nat>, tv: seq<nat>, u: nat, v: nat, src: nat, dst: nat)
    requires u != v && src != dst && multiset(su)[v] == multiset(sv)[u]
    requires tu == if u == src then su + [dst] else if u == dst then su + [src] else su
    requires tv == if v == src then sv + [dst] else if v == dst then sv + [src] else sv
    ensures multiset(tu)[v] == multiset(tv)[u]
  {
    if u == src || u == dst {
      var x: nat := if u == src then dst else src;
      assert multiset(tu) == multiset(su) + multiset{x};
    }
    if v == src || v == dst {
      var y: nat := if v == src then dst else src;
      assert multiset(tv) == multiset(sv) + multiset{y};
    }
  }

  lemma AddLoopSymmetric(g: Graph, src: nat, dst: nat)
    requires Valid(g) && src < g.order && dst < g.order && (g.directed || src == dst)
    ensures Symmetric(g) ==> Symmetric(Append(g, src, dst))
  {
    var h := Append(g, src, dst);
    if Symmetric(g) && !g.directed {
      forall u, v | 0 <= u < g.order && 0 <= v < g.order && u != v
        ensures multiset(h.adj[u])[v] == multiset(h.adj[v])[u]
      {
        assert multiset(g.adj[u])[v] == multiset(g.adj[v])[u];
      }
    }
  }

  /** Position of the first occurrence of x in s. */
  function IndexOf(s: seq<nat>, x: nat): (i: nat)
    requires x in s
    ensures i < |s| && s[i] == x && x !in s[..i]
  {
    if s[0] == x then 0 else assert x in s[1..]; 1 + IndexOf(s[1..], x)
  }

  /** list.remove(x) on a list that holds x: drops its first occurrence. */
  function RemoveFirst(s: seq<nat>, x: nat): (r: seq<nat>)
    requires x in s
    ensures r == s[..IndexOf(s, x)] + s[IndexOf(s, x) + 1..]
    ensures multiset(r) == multiset(s) - multiset{x}
  {
    var i := IndexOf(s, x);
    assert s == s[..i] + [x] + s[i + 1..];
    s[..i] + s[i + 1..]
  }

  /** remove_edge (graph/__init__.py:103-124): range checks as in add_edge; a
      no-op when dst is not in src's list; otherwise one occurrence of dst
      leaves src's list and, for an undirected non-loop edge, one occurrence
      of src leaves dst's list (a ValueError if it is not there). */
  function RemoveEdge(g: Graph, src: int, dst: int): (r: Result<Graph>)
    requires Valid(g)
    ensures !(0 <= src < g.order) ==> r == Err(InvalidSrc)
    ensures 0 <= src < g.order && !(0 <= dst < g.order) ==> r == Err(InvalidDst)
    ensures 0 <= src < g.order && 0 <= dst < g.order && dst !in g.adj[src] ==> r == Ok(g)
    ensures 0 <= src < g.order && 0 <= dst < g.order && dst in g.adj[src] && Symmetric(g) ==>
      && r.Ok?
      && r.value.order == g.order && r.value.directed == g.directed
      && |r.value.adj| == |g.adj|
      && multiset(r.value.adj[src]) == multiset(g.adj[src]) - multiset{dst}
      && (!g.directed && dst != src ==>
            multiset(r.value.adj[dst]) == multiset(g.adj[dst]) - multiset{src})
      && (forall u :: 0 <= u < g.order && u != src && (g.directed || u != dst) ==>
            r.value.adj[u] == g.adj[u])
    ensures r.Ok? ==> Valid(r.value) && (Symmetric(g) ==> Symmetric(r.value))
  {
    if !(0 <= src < g.order) then Err(InvalidSrc)
    else if !(0 <= dst < g.order) then Err(InvalidDst)
    else if dst !in g.adj[src] then Ok(g)
    else
      var h1 := Drop(g, src, dst);
      if !g.directed && dst != src then
        if src in h1.adj[dst] then
          RemoveEdgeSymmetric(g, src, dst);
          Ok(Drop(h1, dst, src))
        else
          assert multiset(g.adj[src])[dst] > 0 && multiset(g.adj[dst])[src] == 0;
          Err(MissingReverse)
      else
        RemoveLoopSymmetric(g, src, dst);
        Ok(h1)
  }

  /** Drops the first occurrence of x from u's list. */
  function Drop(g: Graph, u: nat, x: nat): (r: Graph)
    requires Valid(g) && u < g.order && x in g.adj[u]
    ensures Valid(r) && r.order == g.order && r.directed == g.directed
    ensures r.adj == g.adj[u := RemoveFirst(g.adj[u], x)]
  {
    var r := g.(adj := g.adj[u := RemoveFirst(g.adj[u], x)]);
    assert forall v, i :: 0 <= v < |r.adj| && 0 <= i < |r.adj[v]| ==> r.adj[v][i] < r.order by {
      forall v, i | 0 <= v < |r.adj| && 0 <= i < |r.adj[v]|
        ensures r.adj[v][i] < r.order
      {
        if v == u { assert r.adj[v][i] in multiset(g.adj[u]); } else { assert r.adj[v][i] == g.adj[v][i]; }
      }
    }
    r
  }

  /** The lists remove_edge leaves behind whether or not it raises: the
      ValueError of a missing reverse entry comes after dst has already left
      src's list (graph/__init__.py:120, :124); a range error changes
      nothing. */
  function RemoveInPlace(g: Graph, src: int, dst: int): (r: Graph)
    requires Valid(g)
    ensures Valid(r) && r.order == g.order && r.directed == g.directed
    ensures RemoveEdge(g, src, dst).Ok? ==> r == RemoveEdge(g, src, dst).value
    ensures RemoveEdge(g, src, dst) == Err(MissingReverse) ==>
      && 0 <= src < g.order && 0 <= dst < g.order && dst in g.adj[src]
      && multiset(r.adj[src]) == multiset(g.adj[src]) - multiset{dst as nat}
      && forall u :: 0 <= u < g.order && u != src ==> r.adj[u] == g.adj[u]
    ensures RemoveEdge(g, src, dst).Err? && RemoveEdge(g, src, dst).error != MissingReverse ==> r == g
  {
    match RemoveEdge(g, src, dst)
    case Ok(h) => h
    case Err(e) =>
      if e == MissingReverse then
        assert 0 <= src < g.order && 0 <= dst < g.order && dst in g.adj[src];
        Drop(g, src, dst)
      else g
  }

  lemma RemoveEdgeSymmetric(g: Graph, src: nat, dst: nat)
    requires Valid(g) && src < g.order && dst < g.order && src != dst && dst in g.adj[src]
    requires src in Drop(g, src, dst).adj[dst]
    ensures Symmetric(g) ==> Symmetric(Drop(Drop(g, src, dst), dst, src))
  {
    var h := Drop(Drop(g, src, dst), dst, src);
    assert src in g.adj[dst];
    if Symmetric(g) && !g.directed {
      forall u, v | 0 <= u < g.order && 0 <= v < g.order && u != v
        ensures multiset(h.adj[u])[v] == multiset(h.adj[v])[u]
      {
        assert multiset(g.adj[u])[v] == multiset(g.adj[v])[u];
        RemovePair(g.adj[u], g.adj[v], h.adj[u], h.adj[v], u, v, src, dst);
      }
    }
  }

  /** Counting v in u's list and u in v's list after src and dst are
      removed from each other's lists. */
  lemma RemovePair(su: seq<nat>, sv: seq<nat>, tu: seq<nat>, tv: seq<nat>, u: nat, v: nat, src: nat, dst: nat)
    requires u != v && src != dst && multiset(su)[v] == multiset(sv)[u]
    requires u == src ==> multiset(tu) == multiset(su) - multiset{dst}
    requires u == dst ==> multiset(tu) == multiset(su) - multiset{src}
    requires u != src && u != dst ==> tu == su
    requires v == src ==> multiset(tv) == multiset(sv) - multiset{dst}
    requires v == dst ==> multiset(tv) == multiset(sv) - multiset{src}
    requires v != src && v != dst ==> tv == sv
    ensures multiset(tu)[v] == multiset(tv)[u]
  {
    if u == src || u == dst {
      CountMinus(multiset(su), if u == src then dst else src, v);
    }
    if v == src || v == dst {
      CountMinus(multiset(sv), if v == src then dst else src, u);
    }
  }

  lemma CountMinus(a: multiset<nat>, x: nat, y: nat)
    ensures (a - multiset{x})[y] == if y != x then a[y] else if a[y] > 0 then a[y] - 1 else 0
  {
  }

  lemma RemoveLoopSymmetric(g: Graph, src: nat, dst: nat)
    requires Valid(g) && src < g.order && dst < g.order && dst in g.adj[src]
    requires g.directed || src == dst
    ensures Symmetric(g) ==> Symmetric(Drop(g, src, dst))
  {
    var h := Drop(g, src, dst);
    if Symmetric(g) && !g.directed {
      forall u, v | 0 <= u < g.order && 0 <= v < g.order && u != v
        ensures multiset(h.adj[u])[v] == multiset(h.adj[v])[u]
      {
        assert multiset(g.adj[u])[v] == multiset(g.adj[v])[u];
        if u == src { CountMinus(multiset(g.adj[src]), src, v); }
        if v == src { CountMinus(multiset(g.adj[src]), src, u); }
      }
    }
  }

  /** Removing an edge just added gives back every list as a multiset. */
  lemma AddThenRemove(g: Graph, src: nat, dst: nat)
    requires Valid(g) && Symmetric(g) && src < g.order && dst < g.order
    ensures AddEdge(g, src, dst).Ok?
    ensures var h := AddEdge(g, src, dst).value;
      && RemoveEdge(h, src, dst).Ok?
      && forall u :: 0 <= u < g.order ==>
           multiset(RemoveEdge(h, src, dst).value.adj[u]) == multiset(g.adj[u])
  {
    var h := AddEdge(g, src, dst).value;
    assert dst in h.adj[src];
    var k := RemoveEdge(h, src, dst).value;
    forall u | 0 <= u < g.order
      ensures multiset(k.adj[u]) == multiset(g.adj[u])
    {
      if u == src {
        assert multiset(h.adj[src]) == multiset(g.adj[src]) + multiset{dst};
      } else if !g.directed && u == dst {
        assert multiset(h.adj[dst]) == multiset(g.adj[dst]) + multiset{src};
      }
    }
  }

  /** add_node(number) (graph/__init__.py:86-99): order grows by number and
      that many empty lists are appended after the existing ones. */
  function AddNode(g: Graph, number: nat): (r: Graph)
    requires Valid(g)
    ensures Valid(r) && (Symmetric(g) ==> Symmetric(r))
    ensures r.order == g.order + number && r.directed == g.directed
    ensures r.adj[..g.order] == g.adj
    ensures forall u :: g.order <= u < r.order ==> r.adj[u] == []
  {
    var r := Graph(g.order + number, g.directed, g.adj + seq(number, _ => []));
    assert r.adj[..g.order] == g.adj;
    r
  }

  predicate Sorted(s: seq<nat>) {
    forall i, j :: 0 <= i < j < |s| ==> s[i] <= s[j]
  }

  lemma SortedCons(x: nat, t: seq<nat>)
    requires Sorted(t) && forall y :: y in t ==> x <= y
    ensures Sorted([x] + t)
  {
    var r := [x] + t;
    forall i, j | 0 <= i < j < |r| ensures r[i] <= r[j] {
      if i > 0 { assert r[i] == t[i - 1] && r[j] == t[j - 1]; } else { assert r[j] in t; }
    }
  }

  /** Inserts x into a sorted list after every element not above it. */
  function Insert(x: nat, s: seq<nat>): (r: seq<nat>)
    requires Sorted(s)
    ensures multiset(r) == multiset(s) + multiset{x}
    ensures Sorted(r)
  {
    if s == [] || x <= s[0] then
      SortedCons(x, s);
      [x] + s
    else
      SortedTail(s);
      assert s == [s[0]] + s[1..];
      var t := Insert(x, s[1..]);
      StillAbove(s[0], s[1..], x, t);
      SortedCons(s[0], t);
      [s[0]] + t
  }

  lemma SortedTail(s: seq<nat>)
    requires Sorted(s) && s != []
    ensures Sorted(s[1..]) && forall y :: y in s[1..] ==> s[0] <= y
  {
    forall y | y in s[1..] ensures s[0] <= y {
      var i :| 0 <= i < |s[1..]| && s[1..][i] == y;
      assert s[i + 1] == y;
    }
  }

  /** A lower bound of s and of x bounds anything with their elements. */
  lemma StillAbove(a: nat, s: seq<nat>, x: nat, t: seq<nat>)
    requires a <= x && (forall y :: y in s ==> a <= y)
    requires multiset(t) == multiset(s) + multiset{x}
    ensures forall y :: y in t ==> a <= y
  {
    forall y | y in t ensures a <= y {
      assert multiset(t)[y] > 0;
      if y != x {
        assert multiset(s)[y] == multiset(t)[y];
        assert y in s;
      }
    }
  }

  /** list.sort() on one adjacency list. */
  function SortList(s: seq<nat>): (r: seq<nat>)
    ensures Sorted(r) && multiset(r) == multiset(s)
  {
    if s == [] then []
    else
      assert s == [s[0]] + s[1..];
      Insert(s[0], SortList(s[1..]))
  }

  /** sort(G) (graph/__init__.py:128-133): every list becomes a sorted
      permutation of itself; the node set, and so validity and symmetry, are
      unchanged. */
  function Sort(g: Graph): (r: Graph)
    requires Valid(g)
    ensures Valid(r) && (Symmetric(g) ==> Symmetric(r))
    ensures r.order == g.order && r.directed == g.directed
    ensures forall u :: 0 <= u < g.order ==>
      Sorted(r.adj[u]) && multiset(r.adj[u]) == multiset(g.adj[u])
  {
    var r := g.(adj := seq(g.order, u requires 0 <= u < g.order => SortList(g.adj[u])));
    assert Valid(r) by {
      forall u, i | 0 <= u < r.order && 0 <= i < |r.adj[u]|
        ensures r.adj[u][i] < r.order
      {
        assert r.adj[u][i] in multiset(g.adj[u]);
      }
    }
    r
  }

  // ---------------------------------------------------------------------
  // Walks and reachability, the reference the algorithms are judged by.

  /** v is one of u's listed neighbours. */
  predicate Edge(g: Graph, u: nat, v: nat) {
    u < |g.adj| && v in g.adj[u]
  }

  /** Both ends of an edge are nodes. */
  lemma EdgeNodes(g: Graph, u: nat, v: nat)
    requires Valid(g) && Edge(g, u, v)
    ensures u < g.order && v < g.order
  {
    var i :| 0 <= i < |g.adj[u]| && g.adj[u][i] == v;
  }

  /** A non-empty node sequence whose consecutive nodes are joined by edges. */
  ghost predicate IsWalk(g: Graph, p: seq<nat>) {
    |p| > 0 && forall i: nat {:trigger Hop(g, p, i)} :: i < |p| - 1 ==> Hop(g, p, i)
  }

  /** Step i of p is an edge. Walks are stated through Hop so that a proof
      about a walk looks at the steps it names and no others. */
  ghost predicate Hop(g: Graph, p: seq<nat>, i: nat) {
    i + 1 < |p| && Edge(g, p[i], p[i + 1])
  }

  /** A walk, possibly of no edge, leads from u to v. */
  ghost predicate Reach(g: Graph, u: nat, v: nat) {
    exists p :: IsWalk(g, p) && p[0] == u && p[|p| - 1] == v
  }

  lemma ReachRefl(g: Graph, u: nat)
    ensures Reach(g, u, u)
  {
    assert IsWalk(g, [u]);
  }

  lemma ReachEdge(g: Graph, u: nat, v: nat)
    requires Edge(g, u, v)
    ensures Reach(g, u, v)
  {
    assert IsWalk(g, [u, v]);
  }

  lemma WalkConcat(g: Graph, p: seq<nat>, q: seq<nat>)
    requires IsWalk(g, p) && IsWalk(g, q) && p[|p| - 1] == q[0]
    ensures IsWalk(g, p + q[1..])
  {
    var r := p + q[1..];
    forall i: nat | i < |r| - 1
      ensures Hop(g, r, i)
    {
      if i < |p| - 1 {
        assert Hop(g, p, i);
      } else {
        assert Hop(g, q, i - |p| + 1);
        assert r[i] == q[i - |p| + 1] && r[i + 1] == q[i - |p| + 2];
      }
    }
  }

  lemma ReachTrans(g: Graph, u: nat, v: nat, w: nat)
    requires Reach(g, u, v) && Reach(g, v, w)
    ensures Reach(g, u, w)
  {
    var p :| IsWalk(g, p) && p[0] == u && p[|p| - 1] == v;
    var q :| IsWalk(g, q) && q[0] == v && q[|q| - 1] == w;
    WalkConcat(g, p, q);
    var r := p + q[1..];
    assert r[0] == u;
    assert r[|r| - 1] == w by {
      if |q| == 1 { } else { assert r[|r| - 1] == q[|q| - 1]; }
    }
  }

  lemma ReachStep(g: Graph, u: nat, v: nat, w: nat)
    requires Reach(g, u, v) && Edge(g, v, w)
    ensures Reach(g, u, w)
  {
    ReachEdge(g, v, w);
    ReachTrans(g, u, v, w);
  }

  lemma StepReach(g: Graph, u: nat, v: nat, w: nat)
    requires Edge(g, u, v) && Reach(g, v, w)
    ensures Reach(g, u, w)
  {
    ReachEdge(g, u, v);
    ReachTrans(g, u, v, w);
  }

  /** A stretch of a walk is a walk. */
  lemma WalkSlice(g: Graph, p: seq<nat>, s: nat, t: nat)
    requires IsWalk(g, p) && s <= t < |p|
    ensures IsWalk(g, p[s..t + 1])
  {
    var q := p[s..t + 1];
    forall i: nat | i < |q| - 1 ensures Hop(g, q, i) {
      assert Hop(g, p, s + i);
    }
  }

  /** A walk extended by an edge out of its last node is a walk. */
  lemma WalkAppend(g: Graph, p: seq<nat>, v: nat)
    requires IsWalk(g, p) && Edge(g, p[|p| - 1], v)
    ensures IsWalk(g, p + [v])
  {
    var q := p + [v];
    forall i: nat | i < |q| - 1 ensures Hop(g, q, i) {
      if i < |p| - 1 { assert Hop(g, p, i); }
    }
  }

  /** Along a walk, each node reaches every later one. */
  lemma ReachAlong(g: Graph, p: seq<nat>, s: nat, t: nat)
    requires IsWalk(g, p) && s <= t < |p|
    ensures Reach(g, p[s], p[t])
  {
    WalkSlice(g, p, s, t);
    var q := p[s..t + 1];
    assert IsWalk(g, q) && q[0] == p[s] && q[|q| - 1] == p[t];
  }

  /** Some walk of at least one edge leads from u to v. */
  ghost predicate ReachPlus(g: Graph, u: nat, v: nat) {
    exists w :: Edge(g, u, w) && Reach(g, w, v)
  }

  // ---------------------------------------------------------------------
  // Mark vectors, as kept by the depth-first searches of the library.

  /** Number of unmarked nodes: what every marking search decreases. */
  function Unmarked(m: seq<bool>): (k: nat)
    ensures k <= |m|
  {
    if |m| == 0 then 0 else Unmarked(m[..|m| - 1]) + (if m[|m| - 1] then 0 else 1)
  }

  /** Marks are only ever added. */
  ghost predicate Grows(a: seq<bool>, b: seq<bool>) {
    |a| == |b| && forall v :: 0 <= v < |a| && a[v] ==> b[v]
  }

  /** Successors of x marked in a stay marked in b, and the next one is
      marked now. */
  lemma GrowsAdj(g: Graph, x: nat, i: nat, a: seq<bool>, b: seq<bool>)
    requires Valid(g) && x < g.order && |a| == g.order && i < |g.adj[x]| && Grows(a, b)
    requires forall k :: 0 <= k < i ==> a[g.adj[x][k]]
    requires b[g.adj[x][i]]
    ensures forall k :: 0 <= k < i + 1 ==> b[g.adj[x][k]]
  {
    forall k | 0 <= k < i + 1 ensures b[g.adj[x][k]] {
      if k < i {
        assert a[g.adj[x][k]];
      }
    }
  }

  /** Nodes marked in b and not in a. */
  ghost predicate Fresh(a: seq<bool>, b: seq<bool>, v: nat) {
    v < |a| == |b| && b[v] && !a[v]
  }

  /** Marking one more node leaves strictly fewer unmarked ones. */
  lemma {:induction false} UnmarkedShrinks(a: seq<bool>, b: seq<bool>, v: nat)
    requires Grows(a, b) && v < |a| && b[v] && !a[v]
    ensures Unmarked(b) < Unmarked(a)
    decreases |a|
  {
    var n := |a| - 1;
    UnmarkedGrows(a[..n], b[..n]);
    if v < n {
      UnmarkedShrinks(a[..n], b[..n], v);
    }
  }

  lemma {:induction false} UnmarkedGrows(a: seq<bool>, b: seq<bool>)
    requires Grows(a, b)
    ensures Unmarked(b) <= Unmarked(a)
    decreases |a|
  {
    if |a| > 0 {
      var n := |a| - 1;
      UnmarkedGrows(a[..n], b[..n]);
    }
  }

  /** Marking one unmarked node leaves one fewer unmarked. */
  lemma {:induction false} UnmarkedMark(m: seq<bool>, v: nat)
    requires v < |m| && !m[v]
    ensures Unmarked(m[v := true]) == Unmarked(m) - 1
    decreases |m|
  {
    var n := |m| - 1;
    var m' := m[v := true];
    if v == n {
      assert m'[..n] == m[..n];
    } else {
      assert m'[..n] == m[..n][v := true];
      UnmarkedMark(m[..n], v);
    }
  }

  /** Nothing is marked yet. */
  lemma {:induction false} UnmarkedNone(n: nat)
    ensures Unmarked(seq(n, _ => false)) == n
  {
    if n > 0 {
      assert seq(n, _ => false)[..n - 1] == seq(n - 1, _ => false);
      UnmarkedNone(n - 1);
    }
  }

  /** Every successor of a marked node is marked. */
  ghost predicate Closed(g: Graph, m: seq<bool>)
    requires Valid(g) && |m| == g.order
  {
    forall v, i :: 0 <= v < |m| && m[v] && 0 <= i < |g.adj[v]| ==> m[g.adj[v][i]]
  }

  /** A closed mark vector holds everything reachable from a marked node. */
  lemma ClosedReach(g: Graph, m: seq<bool>, u: nat, v: nat)
    requires Valid(g) && |m| == g.order && Closed(g, m)
    requires u < g.order && m[u] && Reach(g, u, v)
    ensures v < g.order && m[v]
  {
    var p :| IsWalk(g, p) && p[0] == u && p[|p| - 1] == v;
    var k := 0;
    while k < |p| - 1
      invariant k < |p| && p[k] < g.order && m[p[k]]
    {
      assert Hop(g, p, k);
      var i :| 0 <= i < |g.adj[p[k]]| && g.adj[p[k]][i] == p[k + 1];
      k := k + 1;
    }
  }

  // ---------------------------------------------------------------------
  // Counting entries

  /** How many entries of s equal x. */
  function Occurrences(s: seq<nat>, x: nat): nat {
    if s == [] then 0 else Occurrences(s[..|s| - 1], x) + (if s[|s| - 1] == x then 1 else 0)
  }

  /** Occurrences in a prefix grow one entry at a time. */
  lemma OccurrencesPrefix(s: seq<nat>, k: nat, x: nat)
    requires k < |s|
    ensures Occurrences(s[..k + 1], x) == Occurrences(s[..k], x) + (if s[k] == x then 1 else 0)
  {
    assert s[..k + 1][..k] == s[..k];
  }

  /** A prefix holds no more occurrences than the whole list. */
  lemma {:induction false} OccurrencesMono(s: seq<nat>, k: nat, x: nat)
    requires k <= |s|
    ensures Occurrences(s[..k], x) <= Occurrences(s, x)
    decreases |s| - k
  {
    if k < |s| {
      OccurrencesPrefix(s, k, x);
      OccurrencesMono(s, k + 1, x);
    } else {
      assert s[..k] == s;
    }
  }

  /** An entry of s occurs in it at least once. */
  lemma {:induction false} OccurrencesMember(s: seq<nat>, x: nat)
    requires x in s
    ensures Occurrences(s, x) >= 1
  {
    var n := |s| - 1;
    if s[n] != x {
      assert x in s[..n] by {
        var i :| 0 <= i < |s| && s[i] == x;
        assert s[..n][i] == x;
      }
      OccurrencesMember(s[..n], x);
    }
  }

  /** A value that occurs in s is an entry of it; the converse of
      OccurrencesMember. */
  lemma {:induction false} OccurrencesPositive(s: seq<nat>, x: nat)
    requires Occurrences(s, x) > 0
    ensures x in s
  {
    var n := |s| - 1;
    if s[n] != x {
      OccurrencesPositive(s[..n], x);
      var i :| 0 <= i < n && s[..n][i] == x;
      assert s[i] == x;
    }
  }

  // ---------------------------------------------------------------------
  // Sequences without repetition

  predicate Distinct(s: seq<nat>) {
    forall i, j :: 0 <= i < j < |s| ==> s[i] != s[j]
  }

  /** Pigeonhole: distinct entries all below m number at most m. */
  lemma {:induction false} DistinctLength(s: seq<nat>, m: nat)
    requires Distinct(s) && forall i :: 0 <= i < |s| ==> s[i] < m
    ensures |s| <= m
    decreases |s|
  {
    if s != [] {
      // Drop the last entry x and rename m-1 to x: the rest lies below m-1.
      var n := |s| - 1;
      var x := s[n];
      var t := seq(n, i requires 0 <= i < n => if s[i] == m - 1 then x else s[i]);
      forall i | 0 <= i < n ensures t[i] < m - 1 {
        assert s[i] != x;
      }
      forall i, j | 0 <= i < j < n ensures t[i] != t[j] {
        assert s[i] != s[j] && s[i] != x && s[j] != x;
      }
      DistinctLength(t, m - 1);
    }
  }

  /** Distinct entries below n that miss some node below n number fewer
      than n. */
  lemma DistinctMissing(s: seq<nat>, n: nat, v: nat)
    requires Distinct(s) && (forall i :: 0 <= i < |s| ==> s[i] < n) && v < n && v !in s
    ensures |s| < n
  {
    var t := seq(|s|, i requires 0 <= i < |s| => if s[i] == n - 1 then v else s[i]);
    forall a, b | 0 <= a < b < |t| ensures t[a] != t[b] {
      assert s[a] != s[b];
    }
    DistinctLength(t, n - 1);
  }

  /** Fewer than n entries below n miss some node below n. */
  lemma Missing(s: seq<nat>, n: nat) returns (v: nat)
    requires |s| < n
    ensures v < n && v !in s
  {
    if forall u :: 0 <= u < n ==> u in s {
      var t := seq(n, u requires 0 <= u < n && u in s => IndexIn(s, u));
      forall a, b | 0 <= a < b < |t| ensures t[a] != t[b] {
        assert s[t[a]] == a && s[t[b]] == b;
      }
      DistinctLength(t, |s|);
    } else {
      v :| 0 <= v < n && v !in s;
    }
  }

  /** A position holding x. */
  function IndexIn(s: seq<nat>, x: nat): (i: nat)
    requires x in s
    ensures i < |s| && s[i] == x
  {
    if s[0] == x then 0 else 1 + IndexIn(s[1..], x)
  }
}
