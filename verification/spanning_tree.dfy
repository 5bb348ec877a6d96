/**
 * to_tree of graph/connectivity.py:265-307. A depth-first search from node 0,
 * then from every node still unvisited in ascending order, numbers the
 * searches 1, 2, ... in connected_component_map. Each later search root is
 * linked to node 0 by an edge, and every edge found to lead back to a node
 * still open on the search path, other than the father, is queued; once all
 * searches are done the queued edges are removed.
 *
 * connected_component_map holds None, -c or c for a node unvisited, open in
 * the c-th search, or closed by it; the model writes None as 0. The source
 * calls self.addedge and self.removeedge (:301, :305), which the graph class
 * does not define; ToTree calls add_edge and remove_edge in their place,
 * and ToTreeAsWritten keeps the calls as written, so that the first of them
 * raises AttributeError.
 */
module SpanningTree {
  import opened Graphs

  function Abs(x: int): nat {
    if x < 0 then -x else x
  }

  /** The nodes some search has reached. */
  function Seen(ids: seq<int>): (m: seq<bool>)
    ensures |m| == |ids| && forall v :: 0 <= v < |ids| ==> m[v] == (ids[v] != 0)
  {
    seq(|ids|, v requires 0 <= v < |ids| => ids[v] != 0)
  }

  // ---------------------------------------------------------------------
  // The search state

  /** path runs down the search forest: it starts at a search root, each
      node's father is the node before it, and no node repeats. */
  ghost predicate Chain(par: seq<int>, path: seq<nat>) {
    && Distinct(path)
    && (forall k :: 0 <= k < |path| ==> path[k] < |par|)
    && (path != [] ==> par[path[0]] == -1)
    && (forall k :: 1 <= k < |path| ==> par[path[k]] == path[k - 1])
  }

  /** The marks during the c-th search: every id lies in -c .. c, and the
      open ones, -c, are exactly the nodes of the search path. */
  ghost predicate Marks(c: nat, ids: seq<int>, path: seq<nat>) {
    && (forall v :: 0 <= v < |ids| ==> -(c as int) <= ids[v] <= c)
    && (forall v :: 0 <= v < |ids| && ids[v] < 0 ==> ids[v] == -(c as int) && v in path)
    && (forall k :: 0 <= k < |path| ==> path[k] < |ids| && ids[path[k]] == -(c as int))
  }

  /** A closed node's successors are all reached, in its search or an
      earlier one. */
  ghost predicate Downhill(g: Graph, ids: seq<int>)
    requires Valid(g) && |ids| == g.order
  {
    forall v, j :: 0 <= v < |ids| && ids[v] > 0 && 0 <= j < |g.adj[v]| ==>
      ids[g.adj[v][j]] != 0 && Abs(ids[g.adj[v][j]]) <= ids[v]
  }

  /** v is a search root at depth 0, or hangs by an edge from its father,
      one level up in the same search. */
  ghost predicate Hangs(g: Graph, ids: seq<int>, par: seq<int>, dep: seq<nat>, v: nat)
    requires |par| == |ids| && |dep| == |ids| && v < |ids|
  {
    || (par[v] == -1 && dep[v] == 0)
    || (&& 0 <= par[v] < |ids| && ids[par[v]] != 0 && Abs(ids[par[v]]) == Abs(ids[v])
        && Edge(g, par[v], v) && dep[v] == dep[par[v]] + 1)
  }

  /** Every reached node hangs in the search forest. */
  ghost predicate Hung(g: Graph, ids: seq<int>, par: seq<int>, dep: seq<nat>) {
    && |par| == |ids| && |dep| == |ids|
    && forall v {:trigger Hangs(g, ids, par, dep, v)} :: 0 <= v < |ids| && ids[v] != 0 ==> Hangs(g, ids, par, dep, v)
  }

  /** The nodes of the search path lie at their own depth. */
  ghost predicate Depths(dep: seq<nat>, path: seq<nat>) {
    forall k :: 0 <= k < |path| ==> path[k] < |dep| && dep[path[k]] == k
  }

  /** A queued edge e = (u, y) of g: y lies on the search path p that ends
      in u, is not u's father, and so belongs to u's search. */
  ghost predicate Back(g: Graph, ids: seq<int>, par: seq<int>, e: (nat, nat), p: seq<nat>)
    requires |par| == |ids|
  {
    && Chain(par, p) && p != [] && p[|p| - 1] == e.0 && e.1 in p
    && e.0 < |ids| && e.1 < |ids|
    && Edge(g, e.0, e.1) && e.1 != par[e.0]
    && (forall k :: 0 <= k < |p| ==> ids[p[k]] != 0)
    && Abs(ids[e.0]) == Abs(ids[e.1])
  }

  /** Each queued edge with the search path it was queued from. */
  ghost predicate Queued(g: Graph, ids: seq<int>, par: seq<int>, cycles: seq<(nat, nat)>, line: seq<seq<nat>>)
    requires |par| == |ids|
  {
    |line| == |cycles| && forall i :: 0 <= i < |cycles| ==> Back(g, ids, par, cycles[i], line[i])
  }

  /** The whole state of the c-th search with path open. */
  ghost predicate State(g: Graph, c: nat, ids: seq<int>, par: seq<int>, dep: seq<nat>, path: seq<nat>,
                        cycles: seq<(nat, nat)>, line: seq<seq<nat>>)
    requires Valid(g)
  {
    && |ids| == g.order && c >= 1
    && Marks(c, ids, path) && Downhill(g, ids) && Hung(g, ids, par, dep)
    && Chain(par, path) && Depths(dep, path)
    && Queued(g, ids, par, cycles, line)
  }

  /** The graph being searched lists the same successors as g for every
      node not reached yet. */
  ghost predicate Agrees(h: Graph, g: Graph, ids: seq<int>)
    requires |ids| == g.order
  {
    && Valid(h) && h.order == g.order && |g.adj| == g.order
    && forall v :: 0 <= v < |ids| && ids[v] == 0 ==> h.adj[v] == g.adj[v]
  }

  /** Reached nodes keep their id, father and depth. */
  ghost predicate Kept(ids: seq<int>, par: seq<int>, dep: seq<nat>, ids': seq<int>, par': seq<int>, dep': seq<nat>) {
    && |ids'| == |ids| && |par'| == |par| && |dep'| == |dep| && |par| == |ids| && |dep| == |ids|
    && forall v :: 0 <= v < |ids| && ids[v] != 0 ==> ids'[v] == ids[v] && par'[v] == par[v] && dep'[v] == dep[v]
  }

  /** The nodes first reached since ids0 are reached from node; all but
      node are closed in search c and have a father. */
  ghost predicate FreshFrom(g: Graph, node: nat, c: nat, ids0: seq<int>, ids: seq<int>, par: seq<int>)
    requires |ids| == |ids0| == |par|
  {
    forall v :: 0 <= v < |ids0| && ids0[v] == 0 && ids[v] != 0 ==>
      Reach(g, node, v) && (v == node || (ids[v] == c && par[v] != -1))
  }

  /** The pair (a, b) is a tree edge either way, or a queued edge touches
      it. */
  ghost predicate Covered(par: seq<int>, cycles: seq<(nat, nat)>, a: nat, b: nat)
    requires a < |par| && b < |par|
  {
    par[b] == a || par[a] == b || (a, b) in cycles || (b, a) in cycles
  }

  /** The successor y of v is accounted for: (v, y) is covered, or y is
      closed and does not list v back. */
  ghost predicate Settled(g: Graph, ids: seq<int>, par: seq<int>, cycles: seq<(nat, nat)>, v: nat, y: nat)
    requires |par| == |ids| && v < |ids| && y < |ids| && y < |g.adj|
  {
    Covered(par, cycles, v, y) || (ids[y] > 0 && v !in g.adj[y])
  }

  /** Every successor of every closed node is accounted for. */
  ghost predicate Swept(g: Graph, ids: seq<int>, par: seq<int>, cycles: seq<(nat, nat)>)
    requires Valid(g) && |ids| == g.order && |par| == |ids|
  {
    forall v, j :: 0 <= v < |ids| && ids[v] > 0 && 0 <= j < |g.adj[v]| ==>
      Settled(g, ids, par, cycles, v, g.adj[v][j])
  }

  /** The first i successors of node are accounted for. */
  ghost predicate SweptUpTo(g: Graph, ids: seq<int>, par: seq<int>, cycles: seq<(nat, nat)>, node: nat, i: nat)
    requires Valid(g) && |ids| == g.order && |par| == |ids| && node < g.order && i <= |g.adj[node]|
  {
    forall j :: 0 <= j < i ==> Settled(g, ids, par, cycles, node, g.adj[node][j])
  }

  // ---------------------------------------------------------------------
  // Steps of the search

  /** A father chain stays one when fathers change only at unreached
      nodes. */
  lemma ChainKept(ids: seq<int>, par: seq<int>, par': seq<int>, p: seq<nat>)
    requires Chain(par, p) && |par'| == |par| == |ids|
    requires forall k :: 0 <= k < |p| ==> ids[p[k]] != 0
    requires forall v :: 0 <= v < |ids| && ids[v] != 0 ==> par'[v] == par[v]
    ensures Chain(par', p)
  {
    forall k | 0 <= k < |p| ensures par'[p[k]] == par[p[k]] {
      assert ids[p[k]] != 0;
    }
  }

  /** Queued edges stay queued edges when only unreached nodes change. */
  lemma QueuedKept(g: Graph, ids: seq<int>, par: seq<int>, ids': seq<int>, par': seq<int>,
                   cycles: seq<(nat, nat)>, line: seq<seq<nat>>)
    requires |par| == |ids| && |par'| == |ids'| == |ids| && Queued(g, ids, par, cycles, line)
    requires forall v :: 0 <= v < |ids| && ids[v] != 0 ==> par'[v] == par[v] && ids'[v] != 0 && Abs(ids'[v]) == Abs(ids[v])
    ensures Queued(g, ids', par', cycles, line)
  {
    forall i | 0 <= i < |cycles| ensures Back(g, ids', par', cycles[i], line[i]) {
      var e, p := cycles[i], line[i];
      assert Back(g, ids, par, e, p);
      ChainKept(ids, par, par', p);
      forall k | 0 <= k < |p| ensures ids'[p[k]] != 0 {
        assert ids[p[k]] != 0;
      }
      assert ids[e.1] != 0 by {
        var k :| 0 <= k < |p| && p[k] == e.1;
      }
    }
  }

  /** Forest nodes keep hanging when only unreached nodes change and ids
      keep their size. */
  lemma HungKept(g: Graph, ids: seq<int>, par: seq<int>, dep: seq<nat>, ids': seq<int>, par': seq<int>, dep': seq<nat>,
                 x: nat)
    requires Hung(g, ids, par, dep) && |ids'| == |ids| && |par'| == |ids| && |dep'| == |ids|
    requires forall v :: 0 <= v < |ids| && ids[v] != 0 ==>
      par'[v] == par[v] && dep'[v] == dep[v] && ids'[v] != 0 && Abs(ids'[v]) == Abs(ids[v])
    requires forall v :: 0 <= v < |ids| && ids[v] == 0 && ids'[v] != 0 ==> v == x
    requires x < |ids| && ids'[x] != 0 ==> Hangs(g, ids', par', dep', x)
    ensures Hung(g, ids', par', dep')
  {
    forall v | 0 <= v < |ids| && ids'[v] != 0 ensures Hangs(g, ids', par', dep', v) {
      if ids[v] != 0 {
        assert Hangs(g, ids, par, dep, v);
        if par[v] != -1 {
          assert ids[par[v]] != 0;
        }
      }
    }
  }

  /** Opening node in search c: it joins the path with id -c, its father
      and the next depth. */
  lemma Opened(g: Graph, c: nat, ids: seq<int>, par: seq<int>, dep: seq<nat>, path: seq<nat>,
               cycles: seq<(nat, nat)>, line: seq<seq<nat>>, node: nat, father: int,
               ids': seq<int>, par': seq<int>, dep': seq<nat>, path': seq<nat>)
    requires Valid(g) && State(g, c, ids, par, dep, path, cycles, line)
    requires node < g.order && ids[node] == 0
    requires father == (if path == [] then -1 else path[|path| - 1])
    requires father != -1 ==> Edge(g, father, node)
    requires ids' == ids[node := -(c as int)] && par' == par[node := father] && dep' == dep[node := |path|]
    requires path' == path + [node]
    ensures State(g, c, ids', par', dep', path', cycles, line)
  {
    OpenedPath(c, ids, par, dep, path, node, father, ids', par', dep', path');
    OpenedForest(g, c, ids, par, dep, path, cycles, line, node, father, ids', par', dep');
  }

  /** The path part: node is open, its father is the last open node. */
  lemma OpenedPath(c: nat, ids: seq<int>, par: seq<int>, dep: seq<nat>, path: seq<nat>, node: nat, father: int,
                   ids': seq<int>, par': seq<int>, dep': seq<nat>, path': seq<nat>)
    requires Marks(c, ids, path) && Chain(par, path) && Depths(dep, path) && |par| == |dep| == |ids|
    requires node < |ids| && ids[node] == 0 && c >= 1
    requires father == (if path == [] then -1 else path[|path| - 1])
    requires ids' == ids[node := -(c as int)] && par' == par[node := father] && dep' == dep[node := |path|]
    requires path' == path + [node]
    ensures Marks(c, ids', path') && Chain(par', path') && Depths(dep', path')
  {
    assert node !in path by {
      forall k | 0 <= k < |path| ensures path[k] != node { assert ids[path[k]] != 0; }
    }
    forall k | 0 <= k < |path'| ensures path'[k] < |ids'| && ids'[path'[k]] == -(c as int) {
      if k < |path| { assert path'[k] == path[k]; }
    }
    forall k | 1 <= k < |path'| ensures par'[path'[k]] == path'[k - 1] {
      if k < |path| { assert path'[k] == path[k] && path'[k - 1] == path[k - 1]; }
    }
    forall k | 0 <= k < |path'| ensures path'[k] < |dep'| && dep'[path'[k]] == k {
      if k < |path| { assert path'[k] == path[k]; }
    }
  }

  /** The forest part: node hangs from its father, and nothing reached
      before changes. */
  lemma OpenedForest(g: Graph, c: nat, ids: seq<int>, par: seq<int>, dep: seq<nat>, path: seq<nat>,
                     cycles: seq<(nat, nat)>, line: seq<seq<nat>>, node: nat, father: int,
                     ids': seq<int>, par': seq<int>, dep': seq<nat>)
    requires Valid(g) && State(g, c, ids, par, dep, path, cycles, line)
    requires node < g.order && ids[node] == 0
    requires father == (if path == [] then -1 else path[|path| - 1])
    requires father != -1 ==> Edge(g, father, node)
    requires ids' == ids[node := -(c as int)] && par' == par[node := father] && dep' == dep[node := |path|]
    ensures Downhill(g, ids') && Hung(g, ids', par', dep') && Queued(g, ids', par', cycles, line)
  {
    forall v, j | 0 <= v < |ids'| && ids'[v] > 0 && 0 <= j < |g.adj[v]|
      ensures ids'[g.adj[v][j]] != 0 && Abs(ids'[g.adj[v][j]]) <= ids'[v]
    {
      assert ids[v] > 0 && ids[g.adj[v][j]] != 0;
    }
    assert Hangs(g, ids', par', dep', node) by {
      if father != -1 {
        assert dep[path[|path| - 1]] == |path| - 1;
      }
    }
    HungKept(g, ids, par, dep, ids', par', dep', node);
    QueuedKept(g, ids, par, ids', par', cycles, line);
  }

  /** The bookkeeping of a search as it opens node: nothing reached before
      changes, and node is the one node first reached, from itself. */
  lemma Opening(g: Graph, c: nat, node: nat, father: int, d: nat, ids: seq<int>, par: seq<int>, dep: seq<nat>,
                ids': seq<int>, par': seq<int>, dep': seq<nat>)
    requires |par| == |dep| == |ids| && node < |ids| && ids[node] == 0 && c >= 1
    requires ids' == ids[node := -(c as int)] && par' == par[node := father] && dep' == dep[node := d]
    ensures Grows(Seen(ids), Seen(ids')) && Kept(ids, par, dep, ids', par', dep')
    ensures FreshFrom(g, node, c, ids, ids', par')
  {
    ReachRefl(g, node);
  }

  /** ... and as it closes node, which turns from -c to c. */
  lemma Closing(h: Graph, g: Graph, c: nat, node: nat, ids: seq<int>, par: seq<int>, dep: seq<nat>,
                open: seq<int>, par': seq<int>, dep': seq<nat>, ids': seq<int>)
    requires |ids| == |open| == g.order && node < |ids| && ids[node] == 0 && open[node] == -(c as int)
    requires Grows(Seen(ids), Seen(open)) && Kept(ids, par, dep, open, par', dep')
    requires FreshFrom(g, node, c, ids, open, par') && Agrees(h, g, open)
    requires ids' == open[node := c]
    ensures Grows(Seen(ids), Seen(ids')) && Kept(ids, par, dep, ids', par', dep')
    ensures FreshFrom(g, node, c, ids, ids', par') && Agrees(h, g, ids') && ids'[node] == c
  {
  }

  /** Two stretches of a search compose. */
  lemma KeptTrans(ids0: seq<int>, par0: seq<int>, dep0: seq<nat>, ids1: seq<int>, par1: seq<int>, dep1: seq<nat>,
                  ids2: seq<int>, par2: seq<int>, dep2: seq<nat>)
    requires Grows(Seen(ids0), Seen(ids1)) && Kept(ids0, par0, dep0, ids1, par1, dep1)
    requires Grows(Seen(ids1), Seen(ids2)) && Kept(ids1, par1, dep1, ids2, par2, dep2)
    ensures Grows(Seen(ids0), Seen(ids2)) && Kept(ids0, par0, dep0, ids2, par2, dep2)
  {
  }

  /** Closing node: its successors are all reached, and its id turns
      from -c to c as it leaves the path. */
  lemma Closed(g: Graph, c: nat, ids: seq<int>, par: seq<int>, dep: seq<nat>, path: seq<nat>,
               cycles: seq<(nat, nat)>, line: seq<seq<nat>>, node: nat, ids': seq<int>)
    requires Valid(g) && State(g, c, ids, par, dep, path + [node], cycles, line)
    requires node < g.order && forall j :: 0 <= j < |g.adj[node]| ==> ids[g.adj[node][j]] != 0
    requires ids' == ids[node := c]
    ensures State(g, c, ids', par, dep, path, cycles, line)
  {
    var p := path + [node];
    assert p[|path|] == node && ids[node] == -(c as int);
    assert node !in path by {
      forall k | 0 <= k < |path| ensures path[k] != node { assert p[k] == path[k]; }
    }
    forall v | 0 <= v < |ids'| && ids'[v] < 0 ensures ids'[v] == -(c as int) && v in path {
      assert ids[v] < 0 && v in p;
    }
    forall k | 0 <= k < |path| ensures path[k] < |ids'| && ids'[path[k]] == -(c as int) {
      assert p[k] == path[k];
    }
    forall k | 1 <= k < |path| ensures par[path[k]] == path[k - 1] {
      assert p[k] == path[k] && p[k - 1] == path[k - 1];
    }
    forall k | 0 <= k < |path| ensures dep[path[k]] == k {
      assert p[k] == path[k];
    }
    forall v, j | 0 <= v < |ids'| && ids'[v] > 0 && 0 <= j < |g.adj[v]|
      ensures ids'[g.adj[v][j]] != 0 && Abs(ids'[g.adj[v][j]]) <= ids'[v]
    {
      if v != node {
        assert ids[v] > 0 && ids[g.adj[v][j]] != 0;
      }
    }
    assert Hangs(g, ids, par, dep, node);
    if par[node] != -1 {
      assert ids[par[node]] != 0;
    }
    HungKept(g, ids, par, dep, ids', par, dep, node);
    QueuedKept(g, ids, par, ids', par, cycles, line);
  }

  /** The edge node -> y to a node open on the path, not node's father, is
      queued with the path. */
  lemma QueueBack(g: Graph, c: nat, ids: seq<int>, par: seq<int>, dep: seq<nat>, path: seq<nat>,
                  cycles: seq<(nat, nat)>, line: seq<seq<nat>>, node: nat, y: nat)
    requires Valid(g) && State(g, c, ids, par, dep, path, cycles, line)
    requires path != [] && path[|path| - 1] == node && Edge(g, node, y) && y < |ids| && ids[y] < 0
    requires y != par[node]
    ensures State(g, c, ids, par, dep, path, cycles + [(node, y)], line + [path])
  {
    var cycles', line' := cycles + [(node, y)], line + [path];
    forall i | 0 <= i < |cycles'| ensures Back(g, ids, par, cycles'[i], line'[i]) {
      if i < |cycles| {
        assert cycles'[i] == cycles[i] && line'[i] == line[i];
      } else {
        assert ids[node] == -(c as int);
      }
    }
  }

  /** A settled successor stays settled while fathers of reached nodes
      stay, closed nodes stay closed and the queue only grows. */
  lemma SettledKept(g: Graph, ids: seq<int>, par: seq<int>, cycles: seq<(nat, nat)>,
                    ids': seq<int>, par': seq<int>, cycles': seq<(nat, nat)>, v: nat, y: nat)
    requires |par| == |ids| == |par'| == |ids'| && v < |ids| && y < |ids| && y < |g.adj|
    requires par'[v] == par[v] && par'[y] == par[y] && (ids[y] > 0 ==> ids'[y] > 0)
    requires cycles <= cycles' && Settled(g, ids, par, cycles, v, y)
    ensures Settled(g, ids', par', cycles', v, y)
  {
    if (v, y) in cycles {
      var k :| 0 <= k < |cycles| && cycles[k] == (v, y);
      assert cycles'[k] == (v, y);
    } else if (y, v) in cycles {
      var k :| 0 <= k < |cycles| && cycles[k] == (y, v);
      assert cycles'[k] == (y, v);
    }
  }

  /** Swept survives a stretch that keeps reached nodes and grows the
      queue. */
  lemma SweptKept(g: Graph, ids: seq<int>, par: seq<int>, cycles: seq<(nat, nat)>,
                  ids': seq<int>, par': seq<int>, cycles': seq<(nat, nat)>)
    requires Valid(g) && |ids| == |ids'| == |par| == |par'| == g.order
    requires Swept(g, ids, par, cycles) && Downhill(g, ids) && cycles <= cycles'
    requires forall v :: 0 <= v < |ids| && ids[v] != 0 ==> ids'[v] == ids[v] && par'[v] == par[v]
    requires forall v :: 0 <= v < |ids| && ids'[v] > 0 && ids[v] <= 0 ==>
      forall j :: 0 <= j < |g.adj[v]| ==> Settled(g, ids', par', cycles', v, g.adj[v][j])
    ensures Swept(g, ids', par', cycles')
  {
    forall v, j | 0 <= v < |ids'| && ids'[v] > 0 && 0 <= j < |g.adj[v]|
      ensures Settled(g, ids', par', cycles', v, g.adj[v][j])
    {
      if ids[v] > 0 {
        var y := g.adj[v][j];
        assert Settled(g, ids, par, cycles, v, y) && ids[y] != 0;
        SettledKept(g, ids, par, cycles, ids', par', cycles', v, y);
      }
    }
  }

  /** The successors of node settled so far stay settled. */
  lemma UpToKept(g: Graph, ids: seq<int>, par: seq<int>, cycles: seq<(nat, nat)>,
                 ids': seq<int>, par': seq<int>, cycles': seq<(nat, nat)>, node: nat, i: nat)
    requires Valid(g) && |ids| == |ids'| == |par| == |par'| == g.order && node < g.order && i <= |g.adj[node]|
    requires SweptUpTo(g, ids, par, cycles, node, i) && ids[node] != 0 && cycles <= cycles'
    requires forall j :: 0 <= j < i ==> ids[g.adj[node][j]] != 0
    requires forall v :: 0 <= v < |ids| && ids[v] != 0 ==> ids'[v] == ids[v] && par'[v] == par[v]
    ensures SweptUpTo(g, ids', par', cycles', node, i)
  {
    forall j | 0 <= j < i ensures Settled(g, ids', par', cycles', node, g.adj[node][j]) {
      SettledKept(g, ids, par, cycles, ids', par', cycles', node, g.adj[node][j]);
    }
  }

  /** Closing node, whose successors are all settled, keeps Swept. */
  lemma SweptClose(g: Graph, ids: seq<int>, par: seq<int>, cycles: seq<(nat, nat)>, node: nat, ys: seq<nat>,
                    c: nat, ids': seq<int>)
    requires Valid(g) && |ids| == |par| == g.order && node < g.order && ys == g.adj[node]
    requires Swept(g, ids, par, cycles) && SweptUpTo(g, ids, par, cycles, node, |ys|)
    requires ids[node] == -(c as int) && c >= 1 && ids' == ids[node := c]
    ensures Swept(g, ids', par, cycles)
  {
    forall v, j | 0 <= v < |ids'| && ids'[v] > 0 && 0 <= j < |g.adj[v]|
      ensures Settled(g, ids', par, cycles, v, g.adj[v][j])
    {
      var y := g.adj[v][j];
      assert Settled(g, ids, par, cycles, v, y);
    }
  }

  /** Opening an unreached node keeps Swept. */
  lemma SweptOpen(g: Graph, ids: seq<int>, par: seq<int>, cycles: seq<(nat, nat)>, node: nat, father: int,
                  c: nat, ids': seq<int>, par': seq<int>)
    requires Valid(g) && |ids| == |par| == g.order && node < g.order && ids[node] == 0
    requires Swept(g, ids, par, cycles) && Downhill(g, ids)
    requires ids' == ids[node := -(c as int)] && par' == par[node := father]
    ensures Swept(g, ids', par', cycles)
  {
    forall v, j | 0 <= v < |ids'| && ids'[v] > 0 && 0 <= j < |g.adj[v]|
      ensures Settled(g, ids', par', cycles, v, g.adj[v][j])
    {
      var y := g.adj[v][j];
      assert ids[v] > 0 && ids[y] != 0;
      assert Settled(g, ids, par, cycles, v, y);
    }
  }

  // ---------------------------------------------------------------------
  // The search

  /** __make (graph/connectivity.py:270-285): marks node open in search c,
      searches every unvisited successor with node as father, queues the
      edges to open nodes other than the father, then closes node. The
      graph h is the one being turned into a tree; it lists g's successors
      for every node not reached yet, the only ones the search reads. */
  method Make(h: Graph, ghost g: Graph, node: nat, father: int, ids: seq<int>, c: nat, cycles: seq<(nat, nat)>,
              ghost par: seq<int>, ghost dep: seq<nat>, ghost path: seq<nat>, ghost line: seq<seq<nat>>)
    returns (ids': seq<int>, cycles': seq<(nat, nat)>, ghost par': seq<int>, ghost dep': seq<nat>,
             ghost line': seq<seq<nat>>)
    requires Valid(g) && State(g, c, ids, par, dep, path, cycles, line) && Agrees(h, g, ids)
    requires node < g.order && ids[node] == 0
    requires father == (if path == [] then -1 else path[|path| - 1])
    requires father != -1 ==> Edge(g, father, node)
    requires Swept(g, ids, par, cycles)
    decreases Unmarked(Seen(ids)), 1, 0
    ensures State(g, c, ids', par', dep', path, cycles', line') && Agrees(h, g, ids')
    ensures Swept(g, ids', par', cycles') && cycles <= cycles'
    ensures Grows(Seen(ids), Seen(ids')) && ids'[node] == c && par'[node] == father
    ensures Kept(ids, par, dep, ids', par', dep')
    ensures FreshFrom(g, node, c, ids, ids', par')
  {
    var ys := h.adj[node];
    ghost var path' := path + [node];
    ids', par', dep' := ids[node := -(c as int)], par[node := father], dep[node := |path|];
    Opened(g, c, ids, par, dep, path, cycles, line, node, father, ids', par', dep', path');
    Opening(g, c, node, father, |path|, ids, par, dep, ids', par', dep');
    SweptOpen(g, ids, par, cycles, node, father, c, ids', par');
    UnmarkedShrinks(Seen(ids), Seen(ids'), node);
    ids', cycles', par', dep', line' := Sweep(h, g, node, father, ys, 0, ids, par, dep,
                                              ids', c, cycles, par', dep', path', line);
    ghost var open := ids';
    assert open[node] == -(c as int) by {
      assert path'[|path|] == node;
    }
    ids' := ids'[node := c];
    SweptClose(g, open, par', cycles', node, ys, c, ids');
    Closed(g, c, open, par', dep', path, cycles', line', node, ids');
    Closing(h, g, c, node, ids, par, dep, open, par', dep', ids');
  }

  /** The loop at graph/connectivity.py:275-282 from node's i-th successor
      on: every successor is reached once it is done. */
  method Sweep(h: Graph, ghost g: Graph, node: nat, father: int, ys: seq<nat>, i: nat,
               ghost ids0: seq<int>, ghost par0: seq<int>, ghost dep0: seq<nat>,
               ids: seq<int>, c: nat, cycles: seq<(nat, nat)>,
               ghost par: seq<int>, ghost dep: seq<nat>, ghost path: seq<nat>, ghost line: seq<seq<nat>>)
    returns (ids': seq<int>, cycles': seq<(nat, nat)>, ghost par': seq<int>, ghost dep': seq<nat>,
             ghost line': seq<seq<nat>>)
    requires Valid(g) && State(g, c, ids, par, dep, path, cycles, line) && Agrees(h, g, ids)
    requires node < g.order && ys == g.adj[node] && i <= |ys|
    requires path != [] && path[|path| - 1] == node && par[node] == father
    requires |ids0| == |ids| && Grows(Seen(ids0), Seen(ids)) && Kept(ids0, par0, dep0, ids, par, dep)
    requires FreshFrom(g, node, c, ids0, ids, par)
    requires forall j :: 0 <= j < i ==> ids[g.adj[node][j]] != 0
    requires Swept(g, ids, par, cycles) && SweptUpTo(g, ids, par, cycles, node, i)
    decreases Unmarked(Seen(ids)), 2, |ys| - i
    ensures State(g, c, ids', par', dep', path, cycles', line') && Agrees(h, g, ids')
    ensures Swept(g, ids', par', cycles') && SweptUpTo(g, ids', par', cycles', node, |ys|) && cycles <= cycles'
    ensures Grows(Seen(ids0), Seen(ids')) && Kept(ids0, par0, dep0, ids', par', dep')
    ensures Kept(ids, par, dep, ids', par', dep')
    ensures FreshFrom(g, node, c, ids0, ids', par')
    ensures forall j :: 0 <= j < |ys| ==> ids'[g.adj[node][j]] != 0
  {
    if i == |ys| {
      ids', cycles', par', dep', line' := ids, cycles, par, dep, line;
    } else {
      var ids1, cycles1, par1, dep1, line1 := Scan(h, g, node, father, i, ys[i], ids0, par0, dep0,
                                                   ids, c, cycles, par, dep, path, line);
      UnmarkedGrows(Seen(ids), Seen(ids1));
      ids', cycles', par', dep', line' := Sweep(h, g, node, father, ys, i + 1, ids0, par0, dep0,
                                                ids1, c, cycles1, par1, dep1, path, line1);
    }
  }

  /** One pass of the loop at graph/connectivity.py:275-282 over node's
      i-th successor y: an unvisited y is searched with node as father; an
      open y other than the father is queued as a cycle edge. */
  method Scan(h: Graph, ghost g: Graph, node: nat, father: int, i: nat, y: nat,
              ghost ids0: seq<int>, ghost par0: seq<int>, ghost dep0: seq<nat>,
              ids: seq<int>, c: nat, cycles: seq<(nat, nat)>,
              ghost par: seq<int>, ghost dep: seq<nat>, ghost path: seq<nat>, ghost line: seq<seq<nat>>)
    returns (ids': seq<int>, cycles': seq<(nat, nat)>, ghost par': seq<int>, ghost dep': seq<nat>,
             ghost line': seq<seq<nat>>)
    requires Valid(g) && State(g, c, ids, par, dep, path, cycles, line) && Agrees(h, g, ids)
    requires node < g.order && i < |g.adj[node]| && y == g.adj[node][i]
    requires path != [] && path[|path| - 1] == node && par[node] == father
    requires |ids0| == |ids| && Grows(Seen(ids0), Seen(ids)) && Kept(ids0, par0, dep0, ids, par, dep)
    requires FreshFrom(g, node, c, ids0, ids, par)
    requires forall j :: 0 <= j < i ==> ids[g.adj[node][j]] != 0
    requires Swept(g, ids, par, cycles) && SweptUpTo(g, ids, par, cycles, node, i)
    decreases Unmarked(Seen(ids)), 1, 1
    ensures State(g, c, ids', par', dep', path, cycles', line') && Agrees(h, g, ids')
    ensures Swept(g, ids', par', cycles') && SweptUpTo(g, ids', par', cycles', node, i + 1) && cycles <= cycles'
    ensures Grows(Seen(ids0), Seen(ids')) && Kept(ids0, par0, dep0, ids', par', dep')
    ensures Kept(ids, par, dep, ids', par', dep')
    ensures FreshFrom(g, node, c, ids0, ids', par')
    ensures forall j :: 0 <= j < i + 1 ==> ids'[g.adj[node][j]] != 0
  {
    assert Edge(g, node, y);
    EdgeNodes(g, node, y);
    ids', cycles', par', dep', line' := ids, cycles, par, dep, line;
    if ids[y] == 0 {
      // New node (:278-279)
      ids', cycles', par', dep', line' := Make(h, g, y, node, ids, c, cycles, par, dep, path, line);
      Descended(g, node, y, c, ids0, ids, par, ids', par');
      KeptTrans(ids0, par0, dep0, ids, par, dep, ids', par', dep');
      UpToKept(g, ids, par, cycles, ids', par', cycles', node, i);
      assert Covered(par', cycles', node, y);
    } else if y != father && ids[y] < 0 {
      // Ancestor but not father (:281-282)
      QueueBack(g, c, ids, par, dep, path, cycles, line, node, y);
      cycles', line' := cycles + [(node, y)], line + [path];
      SweptKept(g, ids, par, cycles, ids, par, cycles');
      UpToKept(g, ids, par, cycles, ids, par, cycles', node, i);
      assert cycles'[|cycles|] == (node, y);
    } else {
      ScanSettled(g, ids, par, cycles, node, father, y);
    }
    Stepped(g, ids, par, dep, ids', par', dep', node, i);
  }

  /** One more successor of node reached. */
  lemma Stepped(g: Graph, ids: seq<int>, par: seq<int>, dep: seq<nat>, ids': seq<int>, par': seq<int>, dep': seq<nat>,
                node: nat, i: nat)
    requires node < |g.adj| && i < |g.adj[node]| && Kept(ids, par, dep, ids', par', dep')
    requires forall j :: 0 <= j < |g.adj[node]| ==> g.adj[node][j] < |ids|
    requires forall j :: 0 <= j < i ==> ids[g.adj[node][j]] != 0
    requires ids'[g.adj[node][i]] != 0
    ensures forall j :: 0 <= j < i + 1 ==> ids'[g.adj[node][j]] != 0
  {
    forall j | 0 <= j < i + 1 ensures ids'[g.adj[node][j]] != 0 {
      if j < i {
        assert ids[g.adj[node][j]] != 0;
      }
    }
  }

  /** A successor that is the father or already closed needs no queueing:
      the father is a tree edge, and a closed y listing node back settled
      (y, node) while node was open. */
  lemma ScanSettled(g: Graph, ids: seq<int>, par: seq<int>, cycles: seq<(nat, nat)>, node: nat, father: int, y: nat)
    requires Valid(g) && |ids| == |par| == g.order && node < g.order && y < g.order
    requires Swept(g, ids, par, cycles) && ids[node] < 0 && par[node] == father
    requires ids[y] != 0 && !(y != father && ids[y] < 0)
    ensures Settled(g, ids, par, cycles, node, y)
  {
    if y != father && node in g.adj[y] {
      var j :| 0 <= j < |g.adj[y]| && g.adj[y][j] == node;
      assert Settled(g, ids, par, cycles, y, g.adj[y][j]);
    }
  }

  /** The nodes a search from successor y first reaches are reached from
      node. */
  lemma Descended(g: Graph, node: nat, y: nat, c: nat, ids0: seq<int>, ids: seq<int>, par: seq<int>,
                  ids': seq<int>, par': seq<int>)
    requires |ids0| == |ids| == |par| == |ids'| == |par'| && Edge(g, node, y) && node < |ids| && y < |ids|
    requires ids[node] != 0 && FreshFrom(g, node, c, ids0, ids, par)
    requires forall v :: 0 <= v < |ids| && ids[v] != 0 ==> ids'[v] == ids[v] && par'[v] == par[v]
    requires FreshFrom(g, y, c, ids, ids', par') && par'[y] == node && ids'[y] == c
    ensures FreshFrom(g, node, c, ids0, ids', par')
  {
    forall v | 0 <= v < |ids0| && ids0[v] == 0 && ids'[v] != 0
      ensures Reach(g, node, v) && (v == node || (ids'[v] == c && par'[v] != -1))
    {
      if ids[v] == 0 {
        StepReach(g, node, y, v);
      }
    }
  }

  // ---------------------------------------------------------------------
  // The forest

  /** v has the id of a search so far, and that search's root is no larger
      than v, reaches v, and is v itself if v has no father. */
  ghost predicate RootOf(g: Graph, ids: seq<int>, par: seq<int>, roots: seq<nat>, v: nat)
    requires |par| == |ids| && v < |ids|
  {
    && 1 <= ids[v] <= |roots| && roots[ids[v] - 1] <= v && Reach(g, roots[ids[v] - 1], v)
    && (par[v] == -1 ==> v == roots[ids[v] - 1])
  }

  /** After the searches from the roots so far, all below n: the k-th root
      has id k + 1, the roots ascend from node 0, every node below n is
      reached, and every reached node has its root. */
  ghost predicate Rooted(g: Graph, ids: seq<int>, par: seq<int>, roots: seq<nat>, count: nat, n: nat) {
    && |par| == |ids| && |roots| == count && count >= 1 && roots[0] == 0
    && (forall i, j :: 0 <= i < j < count ==> roots[i] < roots[j])
    && (forall k :: 0 <= k < count ==> roots[k] < n && roots[k] < |ids| && ids[roots[k]] == k + 1 && par[roots[k]] == -1)
    && (forall v {:trigger RootOf(g, ids, par, roots, v)} :: 0 <= v < |ids| && ids[v] != 0 ==> RootOf(g, ids, par, roots, v))
    && (forall v :: 0 <= v < n && v < |ids| ==> ids[v] != 0)
  }

  /** h is g with node 0 linked to every later root: each list of g is a
      prefix of h's, and h keeps g's flag and symmetry. */
  ghost predicate Links(g: Graph, h: Graph, roots: seq<nat>)
    requires Valid(g)
  {
    && Valid(h) && h.order == g.order && h.directed == g.directed
    && (forall u :: 0 <= u < g.order ==> g.adj[u] <= h.adj[u])
    && (forall k :: 1 <= k < |roots| ==> 0 < h.order && roots[k] in h.adj[0])
    && (Symmetric(g) ==> Symmetric(h))
  }

  /** Nothing reached yet, before the first search. */
  lemma Start(g: Graph, ids: seq<int>, par: seq<int>, dep: seq<nat>)
    requires Valid(g) && ids == seq(g.order, _ => 0) && par == seq(g.order, _ => -1) && dep == seq(g.order, _ => 0)
    ensures State(g, 1, ids, par, dep, [], [], []) && Swept(g, ids, par, [])
  {
  }

  /** A search with no open node is one of any later number too. */
  lemma Raise(g: Graph, c: nat, ids: seq<int>, par: seq<int>, dep: seq<nat>, cycles: seq<(nat, nat)>, line: seq<seq<nat>>)
    requires Valid(g) && State(g, c, ids, par, dep, [], cycles, line)
    ensures State(g, c + 1, ids, par, dep, [], cycles, line)
  {
  }

  /** The first search, from node 0, makes 0 the first root. */
  lemma FirstRoot(g: Graph, ids0: seq<int>, par0: seq<int>, dep0: seq<nat>, ids: seq<int>, par: seq<int>, dep: seq<nat>)
    requires |ids0| == g.order > 0 && forall v :: 0 <= v < |ids0| ==> ids0[v] == 0
    requires Kept(ids0, par0, dep0, ids, par, dep) && FreshFrom(g, 0, 1, ids0, ids, par)
    requires ids[0] == 1 && par[0] == -1
    ensures Rooted(g, ids, par, [0], 1, 1)
  {
    forall v | 0 <= v < |ids| && ids[v] != 0 ensures RootOf(g, ids, par, [0], v) {
      assert ids0[v] == 0;
    }
  }

  /** A search from the unreached node, all smaller nodes being reached,
      makes node the next root. */
  lemma NextRoot(g: Graph, ids: seq<int>, par: seq<int>, dep: seq<nat>, roots: seq<nat>, count: nat, node: nat,
                 ids': seq<int>, par': seq<int>, dep': seq<nat>)
    requires Rooted(g, ids, par, roots, count, node) && node < |ids| && ids[node] == 0
    requires Kept(ids, par, dep, ids', par', dep') && FreshFrom(g, node, count + 1, ids, ids', par')
    requires ids'[node] == count + 1 && par'[node] == -1
    ensures Rooted(g, ids', par', roots + [node], count + 1, node + 1)
  {
    NextRootOf(g, ids, par, dep, roots, count, node, ids', par', dep');
    NextRootList(g, ids, par, dep, roots, count, node, ids', par', dep');
  }

  /** Every node reached so far keeps its root; the new ones have node. */
  lemma NextRootOf(g: Graph, ids: seq<int>, par: seq<int>, dep: seq<nat>, roots: seq<nat>, count: nat, node: nat,
                   ids': seq<int>, par': seq<int>, dep': seq<nat>)
    requires Rooted(g, ids, par, roots, count, node) && node < |ids| && ids[node] == 0
    requires Kept(ids, par, dep, ids', par', dep') && FreshFrom(g, node, count + 1, ids, ids', par')
    requires ids'[node] == count + 1 && par'[node] == -1
    ensures forall v :: 0 <= v < |ids'| && ids'[v] != 0 ==> RootOf(g, ids', par', roots + [node], v)
  {
    var roots' := roots + [node];
    forall v | 0 <= v < |ids'| && ids'[v] != 0 ensures RootOf(g, ids', par', roots', v) {
      if ids[v] != 0 {
        assert RootOf(g, ids, par, roots, v);
        assert roots'[ids[v] - 1] == roots[ids[v] - 1];
      } else {
        assert !(v < node);
      }
    }
  }

  /** The roots so far keep their ids, and node has the next one. */
  lemma NextRootList(g: Graph, ids: seq<int>, par: seq<int>, dep: seq<nat>, roots: seq<nat>, count: nat, node: nat,
                     ids': seq<int>, par': seq<int>, dep': seq<nat>)
    requires Rooted(g, ids, par, roots, count, node) && node < |ids| && ids[node] == 0
    requires Kept(ids, par, dep, ids', par', dep')
    requires ids'[node] == count + 1 && par'[node] == -1
    ensures forall k :: 0 <= k < count + 1 ==>
      (roots + [node])[k] < node + 1 && (roots + [node])[k] < |ids'|
      && ids'[(roots + [node])[k]] == k + 1 && par'[(roots + [node])[k]] == -1
  {
    var roots' := roots + [node];
    forall k | 0 <= k < count + 1
      ensures roots'[k] < node + 1 && roots'[k] < |ids'| && ids'[roots'[k]] == k + 1 && par'[roots'[k]] == -1
    {
      if k < count {
        assert roots'[k] == roots[k] && ids[roots[k]] != 0;
      }
    }
  }

  /** Linking node 0 to the new root keeps the links. */
  lemma LinkRoot(g: Graph, h: Graph, ids: seq<int>, roots: seq<nat>, node: nat, h': Graph)
    requires Valid(g) && Links(g, h, roots) && |ids| == g.order && Agrees(h, g, ids)
    requires 0 < node < g.order && ids[0] != 0 && ids[node] != 0
    requires AddEdge(h, 0, node).Ok? && h' == AddEdge(h, 0, node).value
    ensures Links(g, h', roots + [node]) && Agrees(h', g, ids)
  {
    var roots' := roots + [node];
    forall u | 0 <= u < g.order ensures g.adj[u] <= h'.adj[u] {
      assert g.adj[u] <= h.adj[u];
    }
    forall k | 1 <= k < |roots'| ensures roots'[k] in h'.adj[0] {
      if k < |roots| {
        assert roots'[k] == roots[k] && roots[k] in h.adj[0];
      } else {
        assert h'.adj[0][|h.adj[0]|] == node;
      }
    }
  }

  /** The loop at graph/connectivity.py:286-301: the search from node 0 is
      the first; every later node still unvisited opens the next search and
      is then linked to node 0. */
  method Forest(g: Graph) returns (ids: seq<int>, count: nat, cycles: seq<(nat, nat)>, h: Graph,
                                   ghost par: seq<int>, ghost dep: seq<nat>, ghost line: seq<seq<nat>>,
                                   ghost roots: seq<nat>)
    requires Valid(g) && g.order > 0
    ensures Top(g, h, ids, count, par, dep, cycles, line, roots, g.order)
  {
    ids := seq(g.order, _ => 0);
    par, dep := seq(g.order, _ => -1), seq(g.order, _ => 0);
    Start(g, ids, par, dep);
    h := g;
    ghost var ids0, par0, dep0 := ids, par, dep;
    ids, cycles, par, dep, line := Make(h, g, 0, -1, ids, 1, [], par, dep, [], []);
    FirstRoot(g, ids0, par0, dep0, ids, par, dep);
    count, roots := 1, [0];
    assert LinkedCounts(g, h, roots[1..]);
    ids, count, cycles, h, par, dep, line, roots := Rest(g, h, 1, ids, count, cycles, par, dep, line, roots);
  }

  /** The loop at graph/connectivity.py:294-301 from node on. */
  method Rest(g: Graph, h: Graph, node: nat, ids: seq<int>, count: nat, cycles: seq<(nat, nat)>,
              ghost par: seq<int>, ghost dep: seq<nat>, ghost line: seq<seq<nat>>, ghost roots: seq<nat>)
    returns (ids': seq<int>, count': nat, cycles': seq<(nat, nat)>, h': Graph,
             ghost par': seq<int>, ghost dep': seq<nat>, ghost line': seq<seq<nat>>, ghost roots': seq<nat>)
    requires Valid(g) && 1 <= node <= g.order && Top(g, h, ids, count, par, dep, cycles, line, roots, node)
    ensures Top(g, h', ids', count', par', dep', cycles', line', roots', g.order)
    decreases g.order - node
  {
    if node == g.order {
      return ids, count, cycles, h, par, dep, line, roots;
    }
    ids', count', cycles', h', par', dep', line', roots' := ids, count, cycles, h, par, dep, line, roots;
    if ids[node] == 0 {
      ids', count', cycles', h', par', dep', line', roots' := Root(g, h, node, ids, count, cycles, par, dep, line, roots);
    } else {
      Passed(g, h, ids, count, par, dep, cycles, line, roots, node);
    }
    ids', count', cycles', h', par', dep', line', roots' :=
      Rest(g, h', node + 1, ids', count', cycles', par', dep', line', roots');
  }

  /** The state between two nodes of the loop at :294-301. */
  ghost predicate Top(g: Graph, h: Graph, ids: seq<int>, count: nat, par: seq<int>, dep: seq<nat>,
                      cycles: seq<(nat, nat)>, line: seq<seq<nat>>, roots: seq<nat>, node: nat)
    requires Valid(g)
  {
    && State(g, count, ids, par, dep, [], cycles, line) && Agrees(h, g, ids)
    && Rooted(g, ids, par, roots, count, node) && Links(g, h, roots)
    && Swept(g, ids, par, cycles) && |roots| >= 1 && LinkedCounts(g, h, roots[1..])
  }

  /** How many entries the links from node 0 to the nodes of rs add at
      (a, b): add_edge(0, r) at :301 lists r under 0 and, in an undirected
      graph, 0 under r. */
  function LinkCount(rs: seq<nat>, directed: bool, a: nat, b: nat): nat {
    (if a == 0 && b in rs then 1 else 0) + (if !directed && b == 0 && a in rs then 1 else 0)
  }

  /** h lists what g lists plus one entry per end of a link. */
  ghost predicate LinkedCounts(g: Graph, h: Graph, rs: seq<nat>)
    requires Valid(g) && Valid(h) && h.order == g.order
  {
    forall a, b :: 0 <= a < g.order && 0 <= b < g.order ==>
      Count(h, a, b) == Count(g, a, b) + LinkCount(rs, g.directed, a, b)
  }

  /** A node reached by an earlier search is passed over. */
  lemma Passed(g: Graph, h: Graph, ids: seq<int>, count: nat, par: seq<int>, dep: seq<nat>,
                cycles: seq<(nat, nat)>, line: seq<seq<nat>>, roots: seq<nat>, node: nat)
    requires Valid(g) && Top(g, h, ids, count, par, dep, cycles, line, roots, node)
    requires node < g.order && ids[node] != 0
    ensures Top(g, h, ids, count, par, dep, cycles, line, roots, node + 1)
  {
    assert Rooted(g, ids, par, roots, count, node + 1);
  }

  /** An unvisited node opens search count + 1 and is linked to node 0
      (graph/connectivity.py:297-301). */
  method Root(g: Graph, h: Graph, node: nat, ids: seq<int>, count: nat, cycles: seq<(nat, nat)>,
              ghost par: seq<int>, ghost dep: seq<nat>, ghost line: seq<seq<nat>>, ghost roots: seq<nat>)
    returns (ids': seq<int>, count': nat, cycles': seq<(nat, nat)>, h': Graph,
             ghost par': seq<int>, ghost dep': seq<nat>, ghost line': seq<seq<nat>>, ghost roots': seq<nat>)
    requires Valid(g) && Top(g, h, ids, count, par, dep, cycles, line, roots, node)
    requires 0 < node < g.order && ids[node] == 0
    ensures Top(g, h', ids', count', par', dep', cycles', line', roots', node + 1)
  {
    Raise(g, count, ids, par, dep, cycles, line);
    ids', cycles', par', dep', line' := Make(h, g, node, -1, ids, count + 1, cycles, par, dep, [], line);
    assert AddEdge(h, 0, node).Ok?;
    h' := AddEdge(h, 0, node).value;
    count', roots' := count + 1, roots + [node];
    RootStep(g, h, node, ids, count, par, dep, roots, ids', cycles', par', dep', line', h');
  }

  /** The searches and links after a new root. */
  lemma RootStep(g: Graph, h: Graph, node: nat, ids: seq<int>, count: nat, par: seq<int>, dep: seq<nat>,
                 roots: seq<nat>, ids': seq<int>, cycles': seq<(nat, nat)>, par': seq<int>, dep': seq<nat>,
                 line': seq<seq<nat>>, h': Graph)
    requires Valid(g) && |ids| == g.order && Rooted(g, ids, par, roots, count, node) && Links(g, h, roots)
    requires 0 < node < g.order && ids[node] == 0
    requires State(g, count + 1, ids', par', dep', [], cycles', line') && Agrees(h, g, ids')
    requires Swept(g, ids', par', cycles') && |roots| >= 1 && LinkedCounts(g, h, roots[1..])
    requires Kept(ids, par, dep, ids', par', dep') && FreshFrom(g, node, count + 1, ids, ids', par')
    requires ids'[node] == count + 1 && par'[node] == -1
    requires AddEdge(h, 0, node).Ok? && h' == AddEdge(h, 0, node).value
    ensures Top(g, h', ids', count + 1, par', dep', cycles', line', roots + [node], node + 1)
  {
    NextRoot(g, ids, par, dep, roots, count, node, ids', par', dep');
    assert ids'[0] != 0 by {
      assert ids[0] != 0;
    }
    LinkRoot(g, h, ids', roots, node, h');
    assert node !in roots[1..] by {
      forall k | 1 <= k < |roots| ensures roots[k] != node { assert ids[roots[k]] != 0; }
    }
    LinkCounts(g, h, roots, node, h');
  }

  /** Linking node 0 to a node other than 0 not linked before adds the
      entries of one more link. */
  lemma LinkCounts(g: Graph, h: Graph, roots: seq<nat>, node: nat, h': Graph)
    requires Valid(g) && Valid(h) && h.order == g.order && h.directed == g.directed
    requires |roots| >= 1 && LinkedCounts(g, h, roots[1..])
    requires 0 < node < g.order && node !in roots[1..]
    requires AddEdge(h, 0, node).Ok? && h' == AddEdge(h, 0, node).value
    ensures Valid(h') && h'.order == g.order && LinkedCounts(g, h', (roots + [node])[1..])
  {
    var rs, rs' := roots[1..], (roots + [node])[1..];
    assert rs' == rs + [node];
    forall a, b | 0 <= a < g.order && 0 <= b < g.order
      ensures Count(h', a, b) == Count(g, a, b) + LinkCount(rs', g.directed, a, b)
    {
      assert (b in rs') == (b in rs || b == node);
      assert (a in rs') == (a in rs || a == node);
      if a == 0 {
        assert h'.adj[0] == h.adj[0] + [node];
        assert multiset(h'.adj[0]) == multiset(h.adj[0]) + multiset{node};
      } else if a == node && !g.directed {
        assert h'.adj[node] == h.adj[node] + [0];
        assert multiset(h'.adj[node]) == multiset(h.adj[node]) + multiset{0};
      } else {
        assert h'.adj[a] == h.adj[a];
      }
    }
  }

  // ---------------------------------------------------------------------
  // Removing the queued edges (graph/connectivity.py:303-305)

  /** Removing e touches the pair (a, b): e is (a, b) or, in an undirected
      graph, (b, a). */
  predicate Hit(e: (nat, nat), directed: bool, a: nat, b: nat) {
    e == (a, b) || (!directed && e == (b, a))
  }

  /** How many of the first n queued edges touch the pair (a, b). */
  function Hits(cycles: seq<(nat, nat)>, n: nat, directed: bool, a: nat, b: nat): nat
    requires n <= |cycles|
  {
    if n == 0 then 0
    else Hits(cycles, n - 1, directed, a, b) + (if Hit(cycles[n - 1], directed, a, b) then 1 else 0)
  }

  /** Subtraction stopping at zero: removing an absent edge removes nothing. */
  function Minus(x: nat, k: nat): nat {
    if x <= k then 0 else x - k
  }

  /** How many times b is in a's list. */
  function Count(g: Graph, a: nat, b: nat): nat
    requires a < |g.adj|
  {
    multiset(g.adj[a])[b]
  }

  /** Every queued edge has both ends in the graph. */
  predicate Inside(cycles: seq<(nat, nat)>, order: nat) {
    forall k :: 0 <= k < |cycles| ==> cycles[k].0 < order && cycles[k].1 < order
  }

  /** One removal from a symmetric graph takes one entry off each pair it
      touches, if there is one, and keeps the graph symmetric. */
  lemma RemoveCounts(g: Graph, s: nat, d: nat, g': Graph)
    requires Valid(g) && Symmetric(g) && s < g.order && d < g.order
    requires RemoveEdge(g, s, d).Ok? && g' == RemoveEdge(g, s, d).value
    ensures Valid(g') && Symmetric(g') && g'.order == g.order && g'.directed == g.directed
    ensures forall a, b :: 0 <= a < g.order && 0 <= b < g.order ==>
      Count(g', a, b) == Minus(Count(g, a, b), if Hit((s, d), g.directed, a, b) then 1 else 0)
  {
    forall a, b | 0 <= a < g.order && 0 <= b < g.order
      ensures Count(g', a, b) == Minus(Count(g, a, b), if Hit((s, d), g.directed, a, b) then 1 else 0)
    {
      RemoveCount(g, s, d, g', a, b);
    }
  }

  /** RemoveCounts for one pair. */
  lemma RemoveCount(g: Graph, s: nat, d: nat, g': Graph, a: nat, b: nat)
    requires Valid(g) && Symmetric(g) && s < g.order && d < g.order && a < g.order && b < g.order
    requires RemoveEdge(g, s, d).Ok? && g' == RemoveEdge(g, s, d).value
    ensures |g'.adj| == |g.adj|
    ensures Count(g', a, b) == Minus(Count(g, a, b), if Hit((s, d), g.directed, a, b) then 1 else 0)
  {
    var k := if Hit((s, d), g.directed, a, b) then 1 else 0;
    if d !in g.adj[s] {
      assert g' == g;
      if k == 1 {
        assert multiset(g.adj[s])[d] == 0;
        if a != s || b != d {
          assert multiset(g.adj[d])[s] == multiset(g.adj[s])[d];
        }
      }
    } else if a == s {
      TakeOne(multiset(g.adj[s]), multiset(g'.adj[s]), d, b, k);
    } else if !g.directed && a == d {
      assert multiset(g.adj[d])[s] == multiset(g.adj[s])[d];
      TakeOne(multiset(g.adj[d]), multiset(g'.adj[d]), s, b, k);
    } else {
      assert g'.adj[a] == g.adj[a];
    }
  }

  /** Taking one x off a multiset holding x. */
  lemma TakeOne(m: multiset<nat>, m': multiset<nat>, x: nat, b: nat, k: nat)
    requires m' == m - multiset{x} && m[x] > 0 && k == (if b == x then 1 else 0)
    ensures m'[b] == Minus(m[b], k)
  {
  }

  /** cur is h with one entry taken off each pair per edge among the first
      n queued edges touching it, as far as there are entries. */
  ghost predicate Pruned(h: Graph, cur: Graph, cycles: seq<(nat, nat)>, n: nat)
    requires Valid(h) && Valid(cur) && cur.order == h.order && n <= |cycles|
  {
    forall a, b :: 0 <= a < h.order && 0 <= b < h.order ==>
      Count(cur, a, b) == Minus(Count(h, a, b), Hits(cycles, n, h.directed, a, b))
  }

  /** One more removal from a symmetric graph extends Pruned by its edge. */
  lemma PruneStep(h: Graph, cur: Graph, cycles: seq<(nat, nat)>, n: nat, next: Graph)
    requires Valid(h) && Valid(cur) && cur.order == h.order && cur.directed == h.directed
    requires n < |cycles| && Symmetric(cur) && Pruned(h, cur, cycles, n)
    requires cycles[n].0 < h.order && cycles[n].1 < h.order
    requires RemoveEdge(cur, cycles[n].0, cycles[n].1).Ok? && next == RemoveEdge(cur, cycles[n].0, cycles[n].1).value
    ensures Valid(next) && Symmetric(next) && next.order == h.order && next.directed == h.directed
    ensures Pruned(h, next, cycles, n + 1)
  {
    RemoveCounts(cur, cycles[n].0, cycles[n].1, next);
  }

  /** The state of the removal loop after the queued edges in done. */
  ghost predicate Pruning(h: Graph, cur: Graph, cycles: seq<(nat, nat)>, n: nat)
    requires Valid(h) && n <= |cycles|
  {
    && Valid(cur) && cur.order == h.order && cur.directed == h.directed
    && (Symmetric(h) ==> Symmetric(cur) && Pruned(h, cur, cycles, n))
  }

  /** A successful removal extends the loop state by its edge. */
  lemma PruneOn(h: Graph, cur: Graph, cycles: seq<(nat, nat)>, n: nat, next: Graph)
    requires Valid(h) && n < |cycles| && Pruning(h, cur, cycles, n)
    requires RemoveEdge(cur, cycles[n].0, cycles[n].1).Ok? && next == RemoveEdge(cur, cycles[n].0, cycles[n].1).value
    ensures Pruning(h, next, cycles, n + 1) && (Removals(h, cycles, n) == Ok(cur) ==> Removals(h, cycles, n + 1) == Ok(next))
  {
    if Symmetric(h) {
      PruneStep(h, cur, cycles, n, next);
    }
  }

  /** A removal between two nodes fails only on a missing reverse entry,
      which a symmetric graph never lacks. */
  lemma RemoveFails(h: Graph, cur: Graph, cycles: seq<(nat, nat)>, n: nat, e: (nat, nat))
    requires Valid(h) && n <= |cycles| && Pruning(h, cur, cycles, n) && e.0 < h.order && e.1 < h.order
    requires RemoveEdge(cur, e.0, e.1).Err?
    ensures RemoveEdge(cur, e.0, e.1).error == MissingReverse && !Symmetric(h)
  {
  }

  /** The first n queued edges removed in turn, stopping at the first
      removal that fails. */
  function Removals(h: Graph, cycles: seq<(nat, nat)>, n: nat): (r: Result<Graph>)
    requires Valid(h) && n <= |cycles|
    ensures r.Ok? ==> Valid(r.value) && r.value.order == h.order && r.value.directed == h.directed
  {
    if n == 0 then Ok(h)
    else
      match Removals(h, cycles, n - 1)
      case Err(e) => Err(e)
      case Ok(cur) => RemoveEdge(cur, cycles[n - 1].0, cycles[n - 1].1)
  }

  /** What the removal loop ends with: r is the outcome of the removals, n
      of them succeeding, and left the graph as the loop leaves it in place:
      after a failure, the earlier removals and whatever the failing one did
      before it raised. From a symmetric graph every removal succeeds and
      takes one entry off each pair a queued edge touches; a failure inside
      the graph is a missing reverse entry. */
  ghost predicate Outcome(h: Graph, cycles: seq<(nat, nat)>, r: Result<Graph>, left: Graph, n: nat)
    requires Valid(h)
  {
    && Valid(left) && left.order == h.order && left.directed == h.directed && n <= |cycles|
    && (r.Ok? ==> n == |cycles| && r == Removals(h, cycles, n) && left == r.value)
    && (r.Err? ==>
          && n < |cycles| && Removals(h, cycles, n).Ok? && r == Removals(h, cycles, n + 1)
          && left == RemoveInPlace(Removals(h, cycles, n).value, cycles[n].0, cycles[n].1))
    && (Inside(cycles, h.order) && Symmetric(h) ==>
          r.Ok? && Symmetric(left) && Pruned(h, left, cycles, |cycles|))
    && (Inside(cycles, h.order) && r.Err? ==> r.error == MissingReverse && !Symmetric(h))
  }

  /** All queued edges removed. */
  lemma Finished(h: Graph, cur: Graph, cycles: seq<(nat, nat)>)
    requires Valid(h) && Pruning(h, cur, cycles, |cycles|) && Removals(h, cycles, |cycles|) == Ok(cur)
    ensures Outcome(h, cycles, Ok(cur), cur, |cycles|)
  {
  }

  /** A failing removal after n successful ones. */
  lemma Stopped(h: Graph, cur: Graph, cycles: seq<(nat, nat)>, n: nat)
    requires Valid(h) && n < |cycles| && Pruning(h, cur, cycles, n) && Removals(h, cycles, n) == Ok(cur)
    requires RemoveEdge(cur, cycles[n].0, cycles[n].1).Err?
    ensures Outcome(h, cycles, RemoveEdge(cur, cycles[n].0, cycles[n].1), RemoveInPlace(cur, cycles[n].0, cycles[n].1), n)
  {
    if Inside(cycles, h.order) {
      RemoveFails(h, cur, cycles, n, cycles[n]);
    }
  }

  /** The removal loop at graph/connectivity.py:304-305: each queued edge in
      turn, stopping at the first removal that fails. */
  method Prune(h: Graph, cycles: seq<(nat, nat)>) returns (r: Result<Graph>, left: Graph, n: nat)
    requires Valid(h)
    ensures Valid(left) && left.order == h.order && left.directed == h.directed
    ensures r.Ok? ==> n == |cycles| && r == Removals(h, cycles, n) && left == r.value
    ensures r.Err? ==>
      && n < |cycles| && Removals(h, cycles, n).Ok? && r == Removals(h, cycles, n + 1)
      && left == RemoveInPlace(Removals(h, cycles, n).value, cycles[n].0, cycles[n].1)
    ensures Inside(cycles, h.order) && Symmetric(h) ==>
      r.Ok? && Symmetric(left) && Pruned(h, left, cycles, |cycles|)
    ensures Inside(cycles, h.order) && r.Err? ==> r.error == MissingReverse && !Symmetric(h)
  {
    r, left, n := PruneFrom(h, cycles, h, 0);
  }

  /** The removal loop from the i-th queued edge on, cur being the graph
      after the first i. */
  method PruneFrom(h: Graph, cycles: seq<(nat, nat)>, cur: Graph, i: nat) returns (r: Result<Graph>, left: Graph, n: nat)
    requires Valid(h) && i <= |cycles| && Pruning(h, cur, cycles, i) && Removals(h, cycles, i) == Ok(cur)
    ensures Outcome(h, cycles, r, left, n)
    decreases |cycles| - i
  {
    if i == |cycles| {
      Finished(h, cur, cycles);
      return Ok(cur), cur, i;
    }
    var step := RemoveEdge(cur, cycles[i].0, cycles[i].1);
    if step.Err? {
      Stopped(h, cur, cycles, i);
      return step, RemoveInPlace(cur, cycles[i].0, cycles[i].1), i;
    }
    PruneOn(h, cur, cycles, i, step.value);
    r, left, n := PruneFrom(h, cycles, step.value, i + 1);
  }

  // ---------------------------------------------------------------------
  // What the finished searches promise

  /** Once all searches are done every node is closed in one of them. */
  lemma AllClosed(g: Graph, h: Graph, ids: seq<int>, count: nat, par: seq<int>, dep: seq<nat>,
                  cycles: seq<(nat, nat)>, line: seq<seq<nat>>, roots: seq<nat>)
    requires Valid(g) && Top(g, h, ids, count, par, dep, cycles, line, roots, g.order)
    ensures forall v :: 0 <= v < g.order ==> 1 <= ids[v] <= count
  {
    forall v | 0 <= v < g.order ensures 1 <= ids[v] <= count {
      assert ids[v] != 0;
      assert RootOf(g, ids, par, roots, v);
    }
  }

  /** With every node closed, a walk never climbs to a later search. */
  lemma ReachLower(g: Graph, ids: seq<int>, u: nat, v: nat)
    requires Valid(g) && |ids| == g.order && Downhill(g, ids)
    requires forall w :: 0 <= w < g.order ==> ids[w] > 0
    requires u < g.order && Reach(g, u, v)
    ensures v < g.order && ids[v] <= ids[u]
  {
    var p :| IsWalk(g, p) && p[0] == u && p[|p| - 1] == v;
    var k := 0;
    while k < |p| - 1
      invariant k < |p| && p[k] < g.order && ids[p[k]] <= ids[u]
    {
      assert Hop(g, p, k);
      var j :| 0 <= j < |g.adj[p[k]]| && g.adj[p[k]][j] == p[k + 1];
      k := k + 1;
    }
  }

  /** In a symmetric undirected graph every edge has its reverse. */
  lemma EdgeBack(g: Graph, u: nat, v: nat)
    requires Valid(g) && !g.directed && Symmetric(g) && Edge(g, u, v)
    ensures Edge(g, v, u)
  {
    EdgeNodes(g, u, v);
    if u != v {
      assert multiset(g.adj[u])[v] > 0;
      assert multiset(g.adj[v])[u] > 0;
    }
  }

  /** In a symmetric undirected graph every walk can be walked back. */
  lemma ReachBack(g: Graph, u: nat, v: nat)
    requires Valid(g) && !g.directed && Symmetric(g) && Reach(g, u, v)
    ensures Reach(g, v, u)
  {
    var p :| IsWalk(g, p) && p[0] == u && p[|p| - 1] == v;
    ReachRefl(g, u);
    var k := 0;
    while k < |p| - 1
      invariant k < |p| && Reach(g, p[k], u)
    {
      assert Hop(g, p, k);
      EdgeBack(g, p[k], p[k + 1]);
      StepReach(g, p[k + 1], p[k], u);
      k := k + 1;
    }
  }

  /** For a symmetric undirected graph the numbering is the connected
      component map: two nodes share an id exactly when one reaches the
      other. */
  lemma SameSearch(g: Graph, ids: seq<int>, par: seq<int>, roots: seq<nat>, count: nat, u: nat, v: nat)
    requires Valid(g) && !g.directed && Symmetric(g) && |ids| == g.order
    requires Downhill(g, ids) && Rooted(g, ids, par, roots, count, g.order)
    requires forall w :: 0 <= w < g.order ==> ids[w] > 0
    requires u < g.order && v < g.order
    ensures ids[u] == ids[v] <==> Reach(g, u, v)
  {
    if ids[u] == ids[v] {
      assert RootOf(g, ids, par, roots, u) && RootOf(g, ids, par, roots, v);
      var r := roots[ids[u] - 1];
      ReachBack(g, r, u);
      ReachTrans(g, u, r, v);
    }
    if Reach(g, u, v) {
      ReachLower(g, ids, u, v);
      ReachBack(g, u, v);
      ReachLower(g, ids, v, u);
    }
  }

  /** No queued edge touches a tree edge (father, v): the edge would have
      to lead from the end of a search path back to a node below it. */
  lemma TreeKept(g: Graph, ids: seq<int>, par: seq<int>, cycles: seq<(nat, nat)>, line: seq<seq<nat>>, v: nat, i: nat)
    requires |par| == |ids| && Queued(g, ids, par, cycles, line)
    requires v < |ids| && 0 <= par[v] && i < |cycles|
    ensures !Hit(cycles[i], g.directed, par[v] as nat, v)
  {
    var e, p := cycles[i], line[i];
    assert Back(g, ids, par, e, p);
    if v in p {
      var j :| 0 <= j < |p| && p[j] == v;
      assert j > 0;
      assert par[v] == p[j - 1];
      assert p[j - 1] != p[|p| - 1];
    }
  }

  /** No queued edge touches a link (0, r) to a later root r: the two ends
      lie in different searches. */
  lemma LinkKept(g: Graph, ids: seq<int>, par: seq<int>, cycles: seq<(nat, nat)>, line: seq<seq<nat>>,
                 roots: seq<nat>, count: nat, k: nat, i: nat)
    requires |par| == |ids| && Queued(g, ids, par, cycles, line) && Rooted(g, ids, par, roots, count, |ids|)
    requires forall w :: 0 <= w < |ids| ==> ids[w] > 0
    requires 1 <= k < count && i < |cycles|
    ensures !Hit(cycles[i], g.directed, 0, roots[k])
  {
    assert Back(g, ids, par, cycles[i], line[i]);
    assert ids[roots[0]] == 1 && ids[roots[k]] == k + 1;
  }

  /** A pair no queued edge among the first n touches loses nothing. */
  lemma {:induction false} NoHits(cycles: seq<(nat, nat)>, n: nat, directed: bool, a: nat, b: nat)
    requires n <= |cycles| && forall i :: 0 <= i < n ==> !Hit(cycles[i], directed, a, b)
    ensures Hits(cycles, n, directed, a, b) == 0
  {
    if n > 0 {
      NoHits(cycles, n - 1, directed, a, b);
    }
  }

  /** An entry of the linked graph that no queued edge touches survives the
      removals. */
  lemma Survives(hl: Graph, h: Graph, cycles: seq<(nat, nat)>, a: nat, b: nat)
    requires Valid(hl) && Valid(h) && h.order == hl.order && Pruned(hl, h, cycles, |cycles|)
    requires a < hl.order && b < hl.order && b in hl.adj[a]
    requires forall i :: 0 <= i < |cycles| ==> !Hit(cycles[i], hl.directed, a, b)
    ensures Edge(h, a, b)
  {
    NoHits(cycles, |cycles|, hl.directed, a, b);
    assert Count(hl, a, b) > 0;
    assert Count(h, a, b) > 0;
  }

  /** Every node is reached in h from the root of its search, down the tree
      edges, which survive the removals. */
  lemma {:induction false} ReachDown(g: Graph, h: Graph, ids: seq<int>, par: seq<int>, dep: seq<nat>,
                                     roots: seq<nat>, count: nat, v: nat)
    requires Valid(g) && |ids| == g.order && Hung(g, ids, par, dep) && Rooted(g, ids, par, roots, count, g.order)
    requires forall w :: 0 <= w < g.order ==> ids[w] > 0
    requires forall w :: 0 <= w < g.order && 0 <= par[w] ==> Edge(h, par[w] as nat, w)
    requires v < g.order
    ensures 1 <= ids[v] <= |roots| && Reach(h, roots[ids[v] - 1], v)
    decreases dep[v]
  {
    assert Hangs(g, ids, par, dep, v) && RootOf(g, ids, par, roots, v);
    if par[v] == -1 {
      ReachRefl(h, v);
    } else {
      var f := par[v] as nat;
      assert ids[f] == ids[v];
      ReachDown(g, h, ids, par, dep, roots, count, f);
      ReachStep(h, roots[ids[v] - 1], f, v);
    }
  }

  // ---------------------------------------------------------------------
  // The tree left behind

  /** No list names the same successor twice. */
  ghost predicate Simple(g: Graph)
    requires Valid(g)
  {
    forall a, b :: 0 <= a < g.order && 0 <= b < g.order ==> Count(g, a, b) <= 1
  }

  /** The father of each node in the tree to_tree leaves: its search
      father, or node 0 for a later search root; node 0 has none. */
  function Up(par: seq<int>): (up: seq<int>)
    ensures |up| == |par|
  {
    seq(|par|, v requires 0 <= v < |par| => if par[v] != -1 then par[v] else if v == 0 then -1 else 0)
  }

  /** The depth of each node in that tree: its depth in its search, one
      more below a later search root. */
  function Level(ids: seq<int>, dep: seq<nat>): (level: seq<nat>)
    requires |ids| == |dep|
    ensures |level| == |dep|
  {
    seq(|dep|, v requires 0 <= v < |dep| => dep[v] + if ids[v] > 1 then 1 else 0)
  }

  /** h is a tree rooted at node 0: every other node has a father up[v] one
      level nearer the root, so following fathers always ends at node 0,
      and h lists exactly the edges between a node and its father, once in
      each direction. */
  ghost predicate IsTree(h: Graph, up: seq<int>, level: seq<nat>)
    requires Valid(h)
  {
    && |up| == h.order && |level| == h.order && (h.order > 0 ==> up[0] == -1)
    && (forall v :: 0 < v < h.order ==> 0 <= up[v] < h.order && level[up[v]] < level[v])
    && (forall a, b :: 0 <= a < h.order && 0 <= b < h.order ==>
          Count(h, a, b) == (if up[b] == a || up[a] == b then 1 else 0))
  }

  /** Some queued edge among the first n touching (a, b) makes Hits
      positive. */
  lemma {:induction false} SomeHit(cycles: seq<(nat, nat)>, n: nat, directed: bool, a: nat, b: nat, i: nat)
    requires i < n <= |cycles| && Hit(cycles[i], directed, a, b)
    ensures Hits(cycles, n, directed, a, b) >= 1
  {
    if i < n - 1 {
      SomeHit(cycles, n - 1, directed, a, b, i);
    }
  }

  /** The later search roots, the nodes linked to node 0, are the nodes
      other than 0 without a father. */
  lemma RootLink(g: Graph, ids: seq<int>, par: seq<int>, roots: seq<nat>, count: nat, v: nat)
    requires |ids| == g.order && Rooted(g, ids, par, roots, count, g.order)
    requires forall w :: 0 <= w < g.order ==> ids[w] > 0
    requires v < g.order
    ensures v in roots[1..] <==> v != 0 && par[v] == -1
  {
    if v in roots[1..] {
      var k :| 0 <= k < |roots[1..]| && roots[1..][k] == v;
      assert roots[k + 1] == v && roots[0] < roots[k + 1];
    }
    if v != 0 && par[v] == -1 {
      assert RootOf(g, ids, par, roots, v);
      var k := ids[v] - 1;
      assert k != 0 && roots[1..][k - 1] == v;
    }
  }

  /** A tree edge (father, v) is in h once, in each direction. */
  lemma TreePair(g: Graph, hl: Graph, h: Graph, ids: seq<int>, par: seq<int>, dep: seq<nat>,
                 cycles: seq<(nat, nat)>, line: seq<seq<nat>>, v: nat)
    requires Valid(g) && !g.directed && Symmetric(g) && Simple(g) && |ids| == g.order
    requires Hung(g, ids, par, dep) && Queued(g, ids, par, cycles, line)
    requires v < g.order && ids[v] > 0 && 0 <= par[v] < g.order
    requires Valid(hl) && hl.order == g.order && hl.directed == g.directed
    requires Count(hl, par[v] as nat, v) == Count(g, par[v] as nat, v)
    requires Count(hl, v, par[v] as nat) == Count(g, v, par[v] as nat)
    requires Valid(h) && h.order == g.order && Pruned(hl, h, cycles, |cycles|)
    ensures Count(h, par[v] as nat, v) == 1 && Count(h, v, par[v] as nat) == 1
  {
    assert Hangs(g, ids, par, dep, v);
    var f := par[v] as nat;
    assert f != v;
    assert Count(g, f, v) == 1;
    assert Count(g, v, f) == 1;
    forall i | 0 <= i < |cycles| ensures !Hit(cycles[i], false, f, v) && !Hit(cycles[i], false, v, f) {
      TreeKept(g, ids, par, cycles, line, v, i);
    }
    NoHits(cycles, |cycles|, false, f, v);
    NoHits(cycles, |cycles|, false, v, f);
  }

  /** The link (0, r) to a later search root r is in h once, in each
      direction: g has no edge between different searches. */
  lemma LinkPair(g: Graph, hl: Graph, h: Graph, ids: seq<int>, par: seq<int>, cycles: seq<(nat, nat)>,
                 line: seq<seq<nat>>, roots: seq<nat>, count: nat, r: nat)
    requires Valid(g) && !g.directed && Symmetric(g) && |ids| == g.order
    requires forall w :: 0 <= w < g.order ==> ids[w] > 0
    requires Rooted(g, ids, par, roots, count, g.order) && Downhill(g, ids) && Queued(g, ids, par, cycles, line)
    requires Valid(hl) && hl.order == g.order && hl.directed == g.directed && LinkedCounts(g, hl, roots[1..])
    requires Valid(h) && h.order == g.order && Pruned(hl, h, cycles, |cycles|)
    requires r < g.order && r in roots[1..]
    ensures r != 0 && Count(h, 0, r) == 1 && Count(h, r, 0) == 1
  {
    var k :| 0 <= k < |roots[1..]| && roots[1..][k] == r;
    assert roots[k + 1] == r && roots[0] < r;
    assert ids[0] == 1 && ids[r] == k + 2;
    forall j | 0 <= j < |g.adj[0]| ensures g.adj[0][j] != r {
      assert Abs(ids[g.adj[0][j]]) <= ids[0];
    }
    assert Count(g, 0, r) == 0;
    assert Count(g, r, 0) == 0;
    forall i | 0 <= i < |cycles| ensures !Hit(cycles[i], false, 0, r) && !Hit(cycles[i], false, r, 0) {
      LinkKept(g, ids, par, cycles, line, roots, count, k + 1, i);
    }
    NoHits(cycles, |cycles|, false, 0, r);
    NoHits(cycles, |cycles|, false, r, 0);
  }

  /** Any other pair has lost its one edge of g to a queued edge, if it had
      one: once every node is closed every edge is covered. */
  lemma OtherPair(g: Graph, hl: Graph, h: Graph, ids: seq<int>, par: seq<int>, cycles: seq<(nat, nat)>, a: nat, b: nat)
    requires Valid(g) && !g.directed && Symmetric(g) && Simple(g) && |ids| == g.order && |par| == g.order
    requires forall w :: 0 <= w < g.order ==> ids[w] > 0
    requires Swept(g, ids, par, cycles)
    requires a < g.order && b < g.order && par[b] != a && par[a] != b
    requires Valid(hl) && hl.order == g.order && hl.directed == g.directed && Count(hl, a, b) == Count(g, a, b)
    requires Valid(h) && h.order == g.order && Pruned(hl, h, cycles, |cycles|)
    ensures Count(h, a, b) == 0
  {
    if b in g.adj[a] {
      var j :| 0 <= j < |g.adj[a]| && g.adj[a][j] == b;
      assert Settled(g, ids, par, cycles, a, g.adj[a][j]);
      assert a in g.adj[b] by {
        if a != b {
          assert multiset(g.adj[a])[b] == multiset(g.adj[b])[a];
        }
      }
      var i :| 0 <= i < |cycles| && (cycles[i] == (a, b) || cycles[i] == (b, a));
      SomeHit(cycles, |cycles|, false, a, b, i);
    }
  }

  /** Each pair of nodes is in h once if one is the other's father in the
      tree, and not at all otherwise. */
  lemma PairCount(g: Graph, hl: Graph, h: Graph, ids: seq<int>, par: seq<int>, dep: seq<nat>,
                  cycles: seq<(nat, nat)>, line: seq<seq<nat>>, roots: seq<nat>, count: nat, a: nat, b: nat)
    requires Valid(g) && !g.directed && Symmetric(g) && Simple(g) && |ids| == g.order
    requires forall w :: 0 <= w < g.order ==> ids[w] > 0
    requires Rooted(g, ids, par, roots, count, g.order) && Downhill(g, ids) && Hung(g, ids, par, dep)
    requires Queued(g, ids, par, cycles, line) && Swept(g, ids, par, cycles)
    requires Valid(hl) && hl.order == g.order && hl.directed == g.directed && LinkedCounts(g, hl, roots[1..])
    requires Valid(h) && h.order == g.order && Pruned(hl, h, cycles, |cycles|)
    requires a < g.order && b < g.order
    ensures Count(h, a, b) == (if Up(par)[b] == a || Up(par)[a] == b then 1 else 0)
  {
    var rs := roots[1..];
    RootLink(g, ids, par, roots, count, a);
    RootLink(g, ids, par, roots, count, b);
    assert par[0] == -1 by {
      assert roots[0] == 0;
    }
    assert Count(hl, a, b) == Count(g, a, b) + LinkCount(rs, false, a, b);
    assert Count(hl, b, a) == Count(g, b, a) + LinkCount(rs, false, b, a);
    if par[b] == a {
      assert Hangs(g, ids, par, dep, b);
      TreePair(g, hl, h, ids, par, dep, cycles, line, b);
    } else if par[a] == b {
      assert Hangs(g, ids, par, dep, a);
      TreePair(g, hl, h, ids, par, dep, cycles, line, a);
    } else if a == 0 && b in rs {
      LinkPair(g, hl, h, ids, par, cycles, line, roots, count, b);
    } else if b == 0 && a in rs {
      LinkPair(g, hl, h, ids, par, cycles, line, roots, count, a);
    } else {
      OtherPair(g, hl, h, ids, par, cycles, a, b);
    }
  }

  /** Fathers in the tree lie one level up, and only node 0 has none. */
  lemma Levels(g: Graph, ids: seq<int>, par: seq<int>, dep: seq<nat>, roots: seq<nat>, count: nat)
    requires |ids| == g.order && Hung(g, ids, par, dep) && Rooted(g, ids, par, roots, count, g.order)
    requires forall w :: 0 <= w < g.order ==> ids[w] > 0
    ensures g.order > 0 && Up(par)[0] == -1
    ensures forall v :: 0 < v < g.order ==>
      0 <= Up(par)[v] < g.order && Level(ids, dep)[Up(par)[v]] < Level(ids, dep)[v]
  {
    var up, level := Up(par), Level(ids, dep);
    assert roots[0] == 0 && ids[0] == 1 && par[0] == -1;
    assert Hangs(g, ids, par, dep, 0);
    forall v | 0 < v < g.order ensures 0 <= up[v] < g.order && level[up[v]] < level[v] {
      assert Hangs(g, ids, par, dep, v);
      if par[v] == -1 {
        assert RootOf(g, ids, par, roots, v);
        assert ids[v] != 1;
      } else {
        var f := par[v];
        assert ids[f] == ids[v];
      }
    }
  }

  /** From a symmetric undirected graph without repeated entries, the
      searches and removals leave a tree rooted at node 0. */
  lemma TreeShape(g: Graph, hl: Graph, h: Graph, ids: seq<int>, par: seq<int>, dep: seq<nat>,
                  cycles: seq<(nat, nat)>, line: seq<seq<nat>>, roots: seq<nat>, count: nat)
    requires Valid(g) && !g.directed && Symmetric(g) && Simple(g) && |ids| == g.order
    requires forall w :: 0 <= w < g.order ==> ids[w] > 0
    requires Rooted(g, ids, par, roots, count, g.order) && Downhill(g, ids) && Hung(g, ids, par, dep)
    requires Queued(g, ids, par, cycles, line) && Swept(g, ids, par, cycles)
    requires Valid(hl) && hl.order == g.order && hl.directed == g.directed && LinkedCounts(g, hl, roots[1..])
    requires Valid(h) && h.order == g.order && Pruned(hl, h, cycles, |cycles|)
    ensures IsTree(h, Up(par), Level(ids, dep))
  {
    Levels(g, ids, par, dep, roots, count);
    forall a, b | 0 <= a < g.order && 0 <= b < g.order
      ensures Count(h, a, b) == (if Up(par)[b] == a || Up(par)[a] == b then 1 else 0)
    {
      PairCount(g, hl, h, ids, par, dep, cycles, line, roots, count, a, b);
    }
  }

  /** The whole of to_tree (graph/connectivity.py:265-307). The empty graph
      fails on its first mark. Otherwise the result numbers every node by
      its search, each search root is the least node of its search and
      reaches the rest of it, and no walk climbs to a later search; for a
      symmetric undirected graph the numbering is the connected component
      map. The graph left behind holds every tree edge and every link from
      node 0, so node 0 reaches every node, and it lost one entry per
      queued edge, each an edge of the graph inside one search. A removal
      fails only on a graph whose undirected lists disagree. */
  method ToTree(g: Graph)
    returns (r: Result<seq<int>>, h: Graph, cycles: seq<(nat, nat)>, ghost roots: seq<nat>, hl: Graph,
             ghost par: seq<int>, ghost dep: seq<nat>, ghost line: seq<seq<nat>>, ghost n: nat)
    requires Valid(g)
    ensures g.order == 0 ==> r == Err(IndexOutOfRange) && h == g
    ensures g.order > 0 && Symmetric(g) ==> r.Ok?
    ensures g.order > 0 && r.Err? ==> r.error == MissingReverse && !Symmetric(g)
    ensures g.order > 0 ==>
      && |roots| >= 1 && Valid(hl) && hl.order == g.order && hl.directed == g.directed
      && LinkedCounts(g, hl, roots[1..])
    ensures g.order > 0 && r.Ok? ==> Removals(hl, cycles, |cycles|) == Ok(h)
    ensures g.order > 0 && r.Err? ==>
      && n < |cycles| && Removals(hl, cycles, n).Ok? && Removals(hl, cycles, n + 1) == Err(r.error)
      && h == RemoveInPlace(Removals(hl, cycles, n).value, cycles[n].0, cycles[n].1)
    ensures r.Ok? ==> SearchMap(g, r.value, roots) && Removed(g, r.value, cycles)
    ensures r.Ok? ==> |par| == g.order && Hung(g, r.value, par, dep) && Queued(g, r.value, par, cycles, line)
    ensures Valid(h) && h.order == g.order && h.directed == g.directed
    ensures r.Ok? && Symmetric(g) ==>
      && Pruned(hl, h, cycles, |cycles|)
      && forall v :: 0 <= v < g.order ==> Reach(h, 0, v)
    ensures r.Ok? && !g.directed && Symmetric(g) && Simple(g) ==> IsTree(h, Up(par), Level(r.value, dep))
  {
    if g.order == 0 {
      return Err(IndexOutOfRange), g, [], [], g, [], [], [], 0;
    }
    var ids, count;
    ids, count, cycles, hl, par, dep, line, roots := Forest(g);
    AllClosed(g, hl, ids, count, par, dep, cycles, line, roots);
    assert Inside(cycles, hl.order) by {
      forall i | 0 <= i < |cycles| ensures cycles[i].0 < hl.order && cycles[i].1 < hl.order {
        assert Back(g, ids, par, cycles[i], line[i]);
      }
    }
    var pruned, m;
    pruned, h, m := Prune(hl, cycles);
    n := m;
    if pruned.Err? {
      return Err(pruned.error), h, cycles, roots, hl, par, dep, line, n;
    }
    r := Ok(ids);
    Finish(g, hl, ids, count, par, dep, cycles, line, roots);
    if Symmetric(g) {
      Connected(g, hl, h, ids, count, par, dep, cycles, line, roots);
      if !g.directed && Simple(g) {
        TreeShape(g, hl, h, ids, par, dep, cycles, line, roots, count);
      }
    }
  }

  /** ids numbers every node by its search, 1 to |roots|; the k-th search
      root is roots[k], the least node of its search, reaching all of it;
      no walk climbs to a later search; and in a symmetric undirected graph
      two nodes share an id exactly when one reaches the other. */
  ghost predicate SearchMap(g: Graph, ids: seq<int>, roots: seq<nat>)
    requires Valid(g)
  {
    && |ids| == g.order && |roots| >= 1 && roots[0] == 0
    && (forall v :: 0 <= v < g.order ==> 1 <= ids[v] <= |roots|)
    && (forall k :: 0 <= k < |roots| ==> roots[k] < g.order && ids[roots[k]] == k + 1)
    && (forall v :: 0 <= v < g.order ==> roots[ids[v] - 1] <= v && Reach(g, roots[ids[v] - 1], v))
    && (forall u, v :: 0 <= u < g.order && 0 <= v < g.order && Reach(g, u, v) ==> ids[v] <= ids[u])
    && (!g.directed && Symmetric(g) ==>
          forall u, v :: 0 <= u < g.order && 0 <= v < g.order ==> (ids[u] == ids[v] <==> Reach(g, u, v)))
  }

  /** Every queued edge is an edge of g inside one search. */
  ghost predicate Removed(g: Graph, ids: seq<int>, cycles: seq<(nat, nat)>)
    requires |ids| == g.order
  {
    forall i :: 0 <= i < |cycles| ==>
      cycles[i].0 < g.order && cycles[i].1 < g.order && Edge(g, cycles[i].0, cycles[i].1)
      && ids[cycles[i].0] == ids[cycles[i].1]
  }

  /** The properties ToTree promises, from the state the searches leave. */
  lemma Finish(g: Graph, hl: Graph, ids: seq<int>, count: nat, par: seq<int>, dep: seq<nat>,
               cycles: seq<(nat, nat)>, line: seq<seq<nat>>, roots: seq<nat>)
    requires Valid(g) && Top(g, hl, ids, count, par, dep, cycles, line, roots, g.order)
    requires forall v :: 0 <= v < g.order ==> 1 <= ids[v] <= count
    ensures SearchMap(g, ids, roots) && Removed(g, ids, cycles)
  {
    forall v | 0 <= v < g.order ensures roots[ids[v] - 1] <= v && Reach(g, roots[ids[v] - 1], v) {
      assert RootOf(g, ids, par, roots, v);
    }
    forall u, v | 0 <= u < g.order && 0 <= v < g.order && Reach(g, u, v) ensures ids[v] <= ids[u] {
      ReachLower(g, ids, u, v);
    }
    if !g.directed && Symmetric(g) {
      forall u, v | 0 <= u < g.order && 0 <= v < g.order ensures ids[u] == ids[v] <==> Reach(g, u, v) {
        SameSearch(g, ids, par, roots, count, u, v);
      }
    }
    forall i | 0 <= i < |cycles|
      ensures cycles[i].0 < g.order && cycles[i].1 < g.order && Edge(g, cycles[i].0, cycles[i].1)
      && ids[cycles[i].0] == ids[cycles[i].1]
    {
      assert Back(g, ids, par, cycles[i], line[i]);
    }
  }

  /** The graph left by the removals: node 0 reaches every node, down the
      links to the search roots and the tree edges below them. */
  lemma Connected(g: Graph, hl: Graph, h: Graph, ids: seq<int>, count: nat, par: seq<int>, dep: seq<nat>,
                  cycles: seq<(nat, nat)>, line: seq<seq<nat>>, roots: seq<nat>)
    requires Valid(g) && Top(g, hl, ids, count, par, dep, cycles, line, roots, g.order)
    requires forall v :: 0 <= v < g.order ==> 1 <= ids[v] <= count
    requires Valid(h) && h.order == hl.order && h.directed == hl.directed && Pruned(hl, h, cycles, |cycles|)
    ensures forall v :: 0 <= v < g.order ==> Reach(h, 0, v)
  {
    forall w | 0 <= w < g.order && 0 <= par[w] ensures Edge(h, par[w] as nat, w) {
      assert Hangs(g, ids, par, dep, w);
      var f := par[w] as nat;
      forall i | 0 <= i < |cycles| ensures !Hit(cycles[i], hl.directed, f, w) {
        TreeKept(g, ids, par, cycles, line, w, i);
      }
      assert w in hl.adj[f] by {
        assert g.adj[f] <= hl.adj[f];
      }
      Survives(hl, h, cycles, f, w);
    }
    forall v | 0 <= v < g.order ensures Reach(h, 0, v) {
      ReachDown(g, h, ids, par, dep, roots, count, v);
      var k := ids[v] - 1;
      if k > 0 {
        forall i | 0 <= i < |cycles| ensures !Hit(cycles[i], hl.directed, 0, roots[k]) {
          LinkKept(g, ids, par, cycles, line, roots, count, k, i);
        }
        Survives(hl, h, cycles, 0, roots[k]);
        StepReach(h, 0, roots[k], v);
      }
    }
  }

  // ---------------------------------------------------------------------
  // to_tree as written

  /** to_tree as graph/connectivity.py:265-307 is written: the first call
      of self.addedge (:301) or self.removeedge (:305) raises AttributeError.
      The searches before that call run as in ToTree, so the source returns
      only when the search from node 0 reaches every node and queues no
      edge, and then with the map ToTree returns. */
  method ToTreeAsWritten(g: Graph) returns (r: Result<seq<int>>)
    requires Valid(g)
    ensures g.order == 0 <==> r == Err(IndexOutOfRange)
    ensures g.order > 0 && r.Err? ==> r.error == NoAttribute
    ensures g.order > 0 && (exists v :: 0 <= v < g.order && !Reach(g, 0, v)) ==> r == Err(NoAttribute)
    ensures r.Ok? ==> SearchMap(g, r.value, [0])
    ensures r.Ok? ==> forall v :: 0 <= v < g.order ==> r.value[v] == 1 && Reach(g, 0, v)
  {
    if g.order == 0 {
      return Err(IndexOutOfRange);
    }
    var ids, count, cycles := Searches(g);
    if count > 1 || cycles != [] {
      return Err(NoAttribute);
    }
    r := Ok(ids);
  }

  /** The searches of to_tree up to its first link: when the search from
      node 0 is the only one, it reaches every node. */
  method Searches(g: Graph) returns (ids: seq<int>, count: nat, cycles: seq<(nat, nat)>)
    requires Valid(g) && g.order > 0
    ensures count >= 1
    ensures count == 1 ==> SearchMap(g, ids, [0])
    ensures count == 1 ==> forall v :: 0 <= v < g.order ==> ids[v] == 1 && Reach(g, 0, v)
  {
    var hl;
    ghost var par, dep, line, roots;
    ids, count, cycles, hl, par, dep, line, roots := Forest(g);
    if count == 1 {
      AllClosed(g, hl, ids, count, par, dep, cycles, line, roots);
      Finish(g, hl, ids, count, par, dep, cycles, line, roots);
      assert roots == [0];
    }
  }

  /** Two nodes and no edge: the graph is symmetric, so ToTree returns a
      map and links node 1 to node 0, but node 0 does not reach node 1, so
      ToTreeAsWritten raises AttributeError. */
  lemma TwoIslands()
    ensures var g := Graph(2, false, [[], []]);
      Valid(g) && Symmetric(g) && !Reach(g, 0, 1)
  {
    var g := Graph(2, false, [[], []]);
    var m := [true, false];
    assert Graphs.Closed(g, m);
    if Reach(g, 0, 1) {
      ClosedReach(g, m, 0, 1);
    }
  }
}
