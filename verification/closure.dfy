/**
 * The matrix side of graph/connectivity.py: the adjacency matrix of a graph
 * (to_matrix), Warshall's transitive closure computed in place (warshall,
 * and warshall_undirected, which mirrors every entry it writes), and the
 * connected components read off the closure
 * (connected_components_from_matrix). Entries are booleans: the source
 * stores 0 and 1 and combines them with `or`.
 */
module Closure {
  import opened Graphs

  type Matrix = seq<seq<bool>>

  predicate Square(m: Matrix) {
    forall i :: 0 <= i < |m| ==> |m[i]| == |m|
  }

  /** The matrix of an undirected graph. */
  ghost predicate Mirrored(m: Matrix)
    requires Square(m)
  {
    forall i, j :: 0 <= i < |m| && 0 <= j < |m| ==> m[i][j] == m[j][i]
  }

  // ---------------------------------------------------------------------
  // Paths in a matrix, the reference for the closure

  /** p is a path of at least one edge of m whose inner nodes lie below k. */
  ghost predicate Chain(m: Matrix, p: seq<nat>, k: nat)
    requires Square(m)
  {
    && |p| >= 2
    && (forall t :: 0 <= t < |p| ==> p[t] < |m|)
    && (forall t :: 0 <= t < |p| - 1 ==> m[p[t]][p[t + 1]])
    && (forall t :: 0 < t < |p| - 1 ==> p[t] < k)
  }

  /** An inner node of a chain lies below its bound. */
  lemma ChainInner(m: Matrix, p: seq<nat>, k: nat, t: nat)
    requires Square(m) && Chain(m, p, k) && 0 < t < |p| - 1
    ensures p[t] < k
  {
  }

  ghost predicate PathIn(m: Matrix, i: nat, j: nat, k: nat)
    requires Square(m)
  {
    exists p :: Chain(m, p, k) && p[0] == i && p[|p| - 1] == j
  }

  /** Two paths meeting at a node below k2 make one. */
  lemma ChainJoin(m: Matrix, p: seq<nat>, q: seq<nat>, k: nat, k2: nat)
    requires Square(m) && Chain(m, p, k) && Chain(m, q, k) && p[|p| - 1] == q[0] < k2 && k <= k2
    ensures Chain(m, p + q[1..], k2)
  {
    var r := p + q[1..];
    forall t | 0 <= t < |r| - 1
      ensures m[r[t]][r[t + 1]]
    {
      if t >= |p| - 1 {
        assert r[t] == q[t - |p| + 1] && r[t + 1] == q[t - |p| + 2];
      }
    }
    forall t | 0 < t < |r| - 1
      ensures r[t] < k2
    {
      if t >= |p| {
        assert r[t] == q[t - |p| + 1];
      }
    }
  }

  /** The first inner position of p holding c. */
  lemma FirstAt(p: seq<nat>, c: nat, t0: nat) returns (f: nat)
    requires 0 < t0 < |p| - 1 && p[t0] == c
    ensures 0 < f < |p| - 1 && p[f] == c && forall t :: 0 < t < f ==> p[t] != c
  {
    f := 1;
    while p[f] != c
      invariant 0 < f <= t0 && forall t :: 0 < t < f ==> p[t] != c
      decreases t0 - f
    {
      f := f + 1;
    }
  }

  /** The last inner position of p holding c. */
  lemma LastAt(p: seq<nat>, c: nat, t0: nat) returns (l: nat)
    requires 0 < t0 < |p| - 1 && p[t0] == c
    ensures 0 < l < |p| - 1 && p[l] == c && forall t :: l < t < |p| - 1 ==> p[t] != c
  {
    l := |p| - 2;
    while p[l] != c
      invariant t0 <= l < |p| - 1 && forall t :: l < t < |p| - 1 ==> p[t] != c
      decreases l - t0
    {
      l := l - 1;
    }
  }

  /** A path through c with inner nodes below c + 1 splits at the first and
      at the last c into two paths with inner nodes below c. */
  lemma ChainSplit(m: Matrix, p: seq<nat>, c: nat, t0: nat)
    requires Square(m) && Chain(m, p, c + 1) && 0 < t0 < |p| - 1 && p[t0] == c
    ensures PathIn(m, p[0], c, c) && PathIn(m, c, p[|p| - 1], c)
  {
    var f := FirstAt(p, c, t0);
    var l := LastAt(p, c, t0);
    var p1 := p[..f + 1];
    var p2 := p[l..];
    assert Chain(m, p1, c) by {
      forall t | 0 < t < |p1| - 1 ensures p1[t] < c {
        assert p1[t] == p[t] != c;
      }
    }
    assert p1[0] == p[0] && p1[|p1| - 1] == c;
    assert Chain(m, p2, c) by {
      forall t | 0 <= t < |p2| - 1 ensures m[p2[t]][p2[t + 1]] {
        assert p2[t] == p[l + t] && p2[t + 1] == p[l + t + 1];
      }
      forall t | 0 < t < |p2| - 1 ensures p2[t] < c {
        assert p2[t] == p[l + t] != c;
      }
    }
    assert p2[0] == c && p2[|p2| - 1] == p[|p| - 1];
  }

  // ---------------------------------------------------------------------
  // Rounds of Warshall's algorithm

  /** Round k: i reaches j directly or through k. */
  function Step(m: Matrix, k: nat): (r: Matrix)
    requires Square(m) && k < |m|
    ensures Square(r) && |r| == |m|
    ensures forall i, j {:trigger r[i][j]} :: 0 <= i < |m| && 0 <= j < |m| ==> r[i][j] == (m[i][j] || (m[i][k] && m[k][j]))
  {
    seq(|m|, i requires 0 <= i < |m| => seq(|m|, j requires 0 <= j < |m| => m[i][j] || (m[i][k] && m[k][j])))
  }

  /** The first k rounds. */
  function Upto(m: Matrix, k: nat): (r: Matrix)
    requires Square(m) && k <= |m|
    ensures Square(r) && |r| == |m|
  {
    if k == 0 then m else Step(Upto(m, k - 1), k - 1)
  }

  /** After k rounds an entry is set exactly when a path whose inner nodes
      lie below k joins its ends. */
  lemma {:induction false} UptoPaths(m: Matrix, k: nat, i: nat, j: nat)
    requires Square(m) && k <= |m| && i < |m| && j < |m|
    ensures Upto(m, k)[i][j] <==> PathIn(m, i, j, k)
  {
    if k == 0 {
      PathsDirect(m, i, j);
    } else {
      var c := k - 1;
      var u := Upto(m, c);
      assert Upto(m, k)[i][j] == (u[i][j] || (u[i][c] && u[c][j]));
      UptoPaths(m, c, i, j);
      UptoPaths(m, c, i, c);
      UptoPaths(m, c, c, j);
      if u[i][j] || (u[i][c] && u[c][j]) {
        PathsWiden(m, k, i, j);
      }
      if PathIn(m, i, j, k) {
        PathsNarrow(m, k, i, j);
      }
    }
  }

  /** With no inner nodes allowed, a path is a single entry. */
  lemma PathsDirect(m: Matrix, i: nat, j: nat)
    requires Square(m) && i < |m| && j < |m|
    ensures m[i][j] <==> PathIn(m, i, j, 0)
  {
    if m[i][j] {
      assert Chain(m, [i, j], 0);
    }
    if PathIn(m, i, j, 0) {
      var p :| Chain(m, p, 0) && p[0] == i && p[|p| - 1] == j;
      if |p| > 2 {
        ChainInner(m, p, 0, 1);
      }
    }
  }

  /** Allowing k - 1 as an inner node keeps the old paths and adds those
      through k - 1. */
  lemma PathsWiden(m: Matrix, k: nat, i: nat, j: nat)
    requires Square(m) && 0 < k <= |m|
    requires PathIn(m, i, j, k - 1) || (PathIn(m, i, k - 1, k - 1) && PathIn(m, k - 1, j, k - 1))
    ensures PathIn(m, i, j, k)
  {
    var c := k - 1;
    if PathIn(m, i, j, c) {
      var p :| Chain(m, p, c) && p[0] == i && p[|p| - 1] == j;
      assert Chain(m, p, k);
    } else {
      var p :| Chain(m, p, c) && p[0] == i && p[|p| - 1] == c;
      var q :| Chain(m, q, c) && q[0] == c && q[|q| - 1] == j;
      ChainJoin(m, p, q, c, k);
      assert (p + q[1..])[|p + q[1..]| - 1] == j;
    }
  }

  /** A path whose inner nodes lie below k either avoids k - 1 inside or
      passes through it. */
  lemma PathsNarrow(m: Matrix, k: nat, i: nat, j: nat)
    requires Square(m) && 0 < k && PathIn(m, i, j, k)
    ensures PathIn(m, i, j, k - 1) || (PathIn(m, i, k - 1, k - 1) && PathIn(m, k - 1, j, k - 1))
  {
    var c := k - 1;
    var p :| Chain(m, p, k) && p[0] == i && p[|p| - 1] == j;
    if t0 :| 0 < t0 < |p| - 1 && p[t0] == c {
      ChainSplit(m, p, c, t0);
    } else {
      assert Chain(m, p, c);
    }
  }

  /** Paths compose. */
  lemma PathTrans(m: Matrix, x: nat, y: nat, z: nat)
    requires Square(m) && y < |m| && PathIn(m, x, y, |m|) && PathIn(m, y, z, |m|)
    ensures PathIn(m, x, z, |m|)
  {
    var p :| Chain(m, p, |m|) && p[0] == x && p[|p| - 1] == y;
    var q :| Chain(m, q, |m|) && q[0] == y && q[|q| - 1] == z;
    ChainJoin(m, p, q, |m|, |m|);
    assert (p + q[1..])[|p + q[1..]| - 1] == z;
  }

  /** A round keeps the matrix of an undirected graph mirrored. */
  lemma {:induction false} UptoMirrored(m: Matrix, k: nat)
    requires Square(m) && Mirrored(m) && k <= |m|
    ensures Mirrored(Upto(m, k))
  {
    if k > 0 {
      UptoMirrored(m, k - 1);
    }
  }

  /** In an undirected graph paths run both ways. */
  lemma PathBack(m: Matrix, x: nat, y: nat)
    requires Square(m) && Mirrored(m) && x < |m| && y < |m| && PathIn(m, x, y, |m|)
    ensures PathIn(m, y, x, |m|)
  {
    UptoPaths(m, |m|, x, y);
    UptoPaths(m, |m|, y, x);
    UptoMirrored(m, |m|);
  }

  // ---------------------------------------------------------------------
  // The algorithms

  /** to_matrix (graph/connectivity.py:162-174): entry (i, j) is set exactly
      when j is in i's list. Row node is filled by Row and then stored. */
  method ToMatrix(g: Graph) returns (m: Matrix)
    requires Valid(g)
    ensures Square(m) && |m| == g.order
    ensures forall i, j :: 0 <= i < g.order && 0 <= j < g.order ==> (m[i][j] <==> Edge(g, i, j))
  {
    m := seq(g.order, _ => seq(g.order, _ => false));
    var node := 0;
    while node < g.order
      invariant node <= g.order && Square(m) && |m| == g.order
      invariant forall i, j :: 0 <= i < g.order && 0 <= j < g.order ==> (m[i][j] <==> i < node && Edge(g, i, j))
    {
      var row := Row(g, node);
      m := m[node := row];
      node := node + 1;
    }
  }

  /** The inner loop of to_matrix (:170-172): entry j of node's row is set
      for each j in node's list. */
  method Row(g: Graph, node: nat) returns (row: seq<bool>)
    requires Valid(g) && node < g.order
    ensures |row| == g.order && forall j :: 0 <= j < g.order ==> (row[j] <==> Edge(g, node, j))
  {
    row := seq(g.order, _ => false);
    var k := 0;
    while k < |g.adj[node]|
      invariant k <= |g.adj[node]| && |row| == g.order
      invariant forall j :: 0 <= j < g.order ==> (row[j] <==> j in g.adj[node][..k])
    {
      var neigh := g.adj[node][k];
      assert g.adj[node][..k + 1] == g.adj[node][..k] + [neigh];
      row := row[neigh := true];
      k := k + 1;
    }
    assert g.adj[node][..k] == g.adj[node];
  }

  /** Paths in the matrix of g are the walks of g of at least one edge. */
  lemma MatrixPaths(g: Graph, m: Matrix, i: nat, j: nat)
    requires Valid(g) && Square(m) && |m| == g.order && i < g.order && j < g.order
    requires forall a, b :: 0 <= a < g.order && 0 <= b < g.order ==> (m[a][b] <==> Edge(g, a, b))
    ensures PathIn(m, i, j, |m|) <==> ReachPlus(g, i, j)
  {
    if PathIn(m, i, j, |m|) {
      var p :| Chain(m, p, |m|) && p[0] == i && p[|p| - 1] == j;
      var q := p[1..];
      assert IsWalk(g, q) by {
        forall t | 0 <= t < |q| - 1 ensures Edge(g, q[t], q[t + 1]) {
          assert q[t] == p[t + 1] && q[t + 1] == p[t + 2];
        }
      }
      assert Edge(g, i, p[1]) && Reach(g, p[1], j);
    }
    if ReachPlus(g, i, j) {
      var w :| Edge(g, i, w) && Reach(g, w, j);
      var q :| IsWalk(g, q) && q[0] == w && q[|q| - 1] == j;
      var p := [i] + q;
      forall t | 0 <= t < |p| ensures p[t] < |m| {
        if t > 1 {
          assert Hop(g, q, t - 2);
        }
      }
      forall t | 0 <= t < |p| - 1 ensures m[p[t]][p[t + 1]] {
        if t > 0 {
          assert Hop(g, q, t - 1);
        }
      }
      assert Chain(m, p, |m|);
    }
  }

  /** Round k of warshall (graph/connectivity.py:182-185), in place: the rows
      whose entry in column k is set take in row k. */
  method Round(m: Matrix, k: nat) returns (r: Matrix)
    requires Square(m) && k < |m|
    ensures r == Step(m, k)
  {
    var n := |m|;
    r := m;
    var i := 0;
    while i < n
      invariant i <= n && Square(r) && |r| == n
      invariant forall a, b {:trigger r[a][b]} :: 0 <= a < n && 0 <= b < n ==>
        r[a][b] == (if a < i then m[a][b] || (m[a][k] && m[k][b]) else m[a][b])
    {
      if r[i][k] {
        var j := 0;
        while j < n
          invariant j <= n && Square(r) && |r| == n
          invariant forall a, b {:trigger r[a][b]} :: 0 <= a < n && 0 <= b < n ==>
            r[a][b] == (if a < i || (a == i && b < j) then m[a][b] || (m[a][k] && m[k][b]) else m[a][b])
        {
          r := r[i := r[i][j := r[i][j] || r[k][j]]];
          j := j + 1;
        }
      }
      i := i + 1;
    }
    forall a | 0 <= a < n
      ensures r[a] == Step(m, k)[a]
    {
      assert forall b :: 0 <= b < n ==> r[a][b] == Step(m, k)[a][b];
    }
  }

  /** warshall (graph/connectivity.py:177-186): an entry ends up set exactly
      when a path of at least one edge joins its ends; no set entry is
      cleared. The order argument is the matrix's size. */
  method Warshall(a: Matrix) returns (m: Matrix)
    requires Square(a)
    ensures m == Upto(a, |a|)
    ensures forall i, j :: 0 <= i < |a| && 0 <= j < |a| ==> (m[i][j] <==> PathIn(a, i, j, |a|))
    ensures forall i, j :: 0 <= i < |a| && 0 <= j < |a| && a[i][j] ==> m[i][j]
  {
    m := a;
    var k := 0;
    while k < |a|
      invariant k <= |a| && m == Upto(a, k)
    {
      m := Round(m, k);
      k := k + 1;
    }
    Closes(a, m);
  }

  /** The full closure holds exactly the paths, and every edge. */
  lemma Closes(a: Matrix, m: Matrix)
    requires Square(a) && m == Upto(a, |a|)
    ensures forall i, j :: 0 <= i < |a| && 0 <= j < |a| ==> (m[i][j] <==> PathIn(a, i, j, |a|))
    ensures forall i, j :: 0 <= i < |a| && 0 <= j < |a| && a[i][j] ==> m[i][j]
  {
    forall i, j | 0 <= i < |a| && 0 <= j < |a|
      ensures m[i][j] <==> PathIn(a, i, j, |a|)
      ensures a[i][j] ==> m[i][j]
    {
      ClosesAt(a, i, j);
    }
  }

  lemma ClosesAt(a: Matrix, i: nat, j: nat)
    requires Square(a) && i < |a| && j < |a|
    ensures Upto(a, |a|)[i][j] <==> PathIn(a, i, j, |a|)
    ensures a[i][j] ==> Upto(a, |a|)[i][j]
  {
    if a[i][j] {
      assert Chain(a, [i, j], |a|);
    }
    UptoPaths(a, |a|, i, j);
  }

  /** Round k of warshall_undirected (graph/connectivity.py:194-198): as
      Round, and each entry written is copied to its mirror position. On
      a mirrored matrix the copies agree with the round's own result. */
  method RoundMirrored(m: Matrix, k: nat) returns (r: Matrix)
    requires Square(m) && Mirrored(m) && k < |m|
    ensures r == Step(m, k)
  {
    var n := |m|;
    r := m;
    var i := 0;
    while i < n
      invariant i <= n && Square(r) && |r| == n
      invariant forall a, b {:trigger r[a][b]} :: 0 <= a < n && 0 <= b < n ==>
        r[a][b] == (if (a < i && m[a][k]) || (b < i && m[b][k]) then m[a][b] || (m[a][k] && m[k][b]) else m[a][b])
    {
      if r[i][k] {
        var j := 0;
        while j < n
          invariant j <= n && Square(r) && |r| == n && m[i][k]
          invariant forall a, b {:trigger r[a][b]} :: 0 <= a < n && 0 <= b < n ==>
            r[a][b] == (if (a < i && m[a][k]) || (b < i && m[b][k]) || (a == i && b < j) || (b == i && a < j)
                        then m[a][b] || (m[a][k] && m[k][b]) else m[a][b])
        {
          r := r[i := r[i][j := r[i][j] || r[k][j]]];
          r := r[j := r[j][i := r[i][j]]];
          j := j + 1;
        }
      }
      i := i + 1;
    }
    forall a | 0 <= a < n
      ensures r[a] == Step(m, k)[a]
    {
      assert forall b :: 0 <= b < n ==> r[a][b] == Step(m, k)[a][b];
    }
  }

  /** warshall_undirected (graph/connectivity.py:189-199) on the matrix of
      an undirected graph: the same closure as warshall, still mirrored. */
  method WarshallUndirected(a: Matrix) returns (m: Matrix)
    requires Square(a) && Mirrored(a)
    ensures m == Upto(a, |a|) && Mirrored(m)
    ensures forall i, j :: 0 <= i < |a| && 0 <= j < |a| ==> (m[i][j] <==> PathIn(a, i, j, |a|))
  {
    m := a;
    var k := 0;
    while k < |a|
      invariant k <= |a| && m == Upto(a, k)
    {
      UptoMirrored(a, k);
      m := RoundMirrored(m, k);
      k := k + 1;
    }
    UptoMirrored(a, |a|);
    Closes(a, m);
  }

  // ---------------------------------------------------------------------
  // Components read off the closure

  /** Every two steps of c are one step of c: a closed relation. */
  ghost predicate Transitive(c: Matrix)
    requires Square(c)
  {
    forall x, y, z :: 0 <= x < |c| && 0 <= y < |c| && 0 <= z < |c| && c[x][y] && c[y][z] ==> c[x][z]
  }

  /** The closure of an undirected graph: mirrored and closed. */
  ghost predicate Equivalence(c: Matrix) {
    Square(c) && Mirrored(c) && Transitive(c)
  }

  /** x and y are one node, or c joins them. */
  predicate Linked(c: Matrix, x: nat, y: nat) {
    x == y || (x < |c| && y < |c| && y < |c[x]| && c[x][y])
  }

  lemma LinkedBack(c: Matrix, x: nat, y: nat)
    requires Equivalence(c) && Linked(c, x, y)
    ensures Linked(c, y, x)
  {
  }

  lemma LinkedTrans(c: Matrix, x: nat, y: nat, z: nat)
    requires Equivalence(c) && Linked(c, x, y) && Linked(c, y, z)
    ensures Linked(c, x, z)
  {
  }

  /** The closure of the matrix of an undirected graph is an equivalence. */
  lemma ClosureEquivalence(a: Matrix)
    requires Square(a) && Mirrored(a)
    ensures Equivalence(Upto(a, |a|))
  {
    var c := Upto(a, |a|);
    UptoMirrored(a, |a|);
    forall x, y, z | 0 <= x < |c| && 0 <= y < |c| && 0 <= z < |c| && c[x][y] && c[y][z]
      ensures c[x][z]
    {
      ClosesAt(a, x, y);
      ClosesAt(a, y, z);
      ClosesAt(a, x, z);
      PathTrans(a, x, y, z);
    }
  }

  /** The smallest node from x on linked to y. */
  function LeastFrom(c: Matrix, y: nat, x: nat): (r: nat)
    requires x <= y
    ensures x <= r <= y && Linked(c, r, y)
    ensures forall z :: x <= z < r ==> !Linked(c, z, y)
    decreases y - x
  {
    if Linked(c, x, y) then x else LeastFrom(c, y, x + 1)
  }

  /** The smallest node of y's component. */
  function Least(c: Matrix, y: nat): (r: nat)
    ensures r <= y && Linked(c, r, y) && forall z :: 0 <= z < r ==> !Linked(c, z, y)
  {
    LeastFrom(c, y, 0)
  }

  /** Two nodes are linked exactly when their components have the same
      smallest node. */
  lemma LeastLinked(c: Matrix, y: nat, z: nat)
    requires Equivalence(c) && y < |c| && z < |c|
    ensures Linked(c, y, z) <==> Least(c, y) == Least(c, z)
  {
    var ry, rz := Least(c, y), Least(c, z);
    if Linked(c, y, z) {
      LinkedTrans(c, ry, y, z);
      LinkedBack(c, y, z);
      LinkedTrans(c, rz, z, y);
    }
    if ry == rz {
      LinkedBack(c, ry, y);
      LinkedTrans(c, y, ry, z);
    }
  }

  /** The nodes below t linked to r, in ascending order. */
  function ClassBelow(c: Matrix, r: nat, t: nat): seq<nat> {
    if t == 0 then [] else ClassBelow(c, r, t - 1) + (if Linked(c, r, t - 1) then [t - 1] else [])
  }

  /** The smallest nodes of the components below t, in ascending order. */
  function Roots(c: Matrix, t: nat): seq<nat> {
    if t == 0 then [] else Roots(c, t - 1) + (if Least(c, t - 1) == t - 1 then [t - 1] else [])
  }

  /** ClassBelow lists, ascending, exactly the nodes below t linked to r. */
  lemma {:induction false} ClassMembers(c: Matrix, r: nat, t: nat)
    ensures forall i :: 0 <= i < |ClassBelow(c, r, t)| ==> ClassBelow(c, r, t)[i] < t
    ensures forall i, j :: 0 <= i < j < |ClassBelow(c, r, t)| ==> ClassBelow(c, r, t)[i] < ClassBelow(c, r, t)[j]
    ensures forall y: nat :: y in ClassBelow(c, r, t) <==> y < t && Linked(c, r, y)
  {
    if t > 0 {
      ClassMembers(c, r, t - 1);
    }
  }

  /** Roots lists, ascending, exactly the nodes below t that are the
      smallest of their component. */
  lemma {:induction false} RootsMembers(c: Matrix, t: nat)
    ensures forall i :: 0 <= i < |Roots(c, t)| ==> Roots(c, t)[i] < t
    ensures forall i, j :: 0 <= i < j < |Roots(c, t)| ==> Roots(c, t)[i] < Roots(c, t)[j]
    ensures forall y: nat :: y in Roots(c, t) <==> y < t && Least(c, y) == y
  {
    if t > 0 {
      RootsMembers(c, t - 1);
    }
  }

  /** The nodes below t whose component's smallest node is below x. */
  function Covered(c: Matrix, x: nat, t: nat): (k: nat)
    ensures k <= t
  {
    if t == 0 then 0 else Covered(c, x, t - 1) + (if Least(c, t - 1) < x then 1 else 0)
  }

  /** Every node below x is covered by the roots below x. */
  lemma {:induction false} CoveredLow(c: Matrix, x: nat, t: nat)
    requires x <= t
    ensures Covered(c, x, t) >= x
  {
    if t > x {
      CoveredLow(c, x, t - 1);
    } else if t > 0 {
      CoveredLow(c, x - 1, t - 1);
      CoveredMono(c, x - 1, x, t - 1);
    }
  }

  lemma {:induction false} CoveredMono(c: Matrix, x: nat, x2: nat, t: nat)
    requires x <= x2
    ensures Covered(c, x, t) <= Covered(c, x2, t)
  {
    if t > 0 {
      CoveredMono(c, x, x2, t - 1);
    }
  }

  /** All nodes covered: every component's smallest node is below x. */
  lemma {:induction false} CoveredAll(c: Matrix, x: nat, t: nat, y: nat)
    requires Covered(c, x, t) == t && y < t
    ensures Least(c, y) < x
  {
    if y < t - 1 {
      CoveredAll(c, x, t - 1, y);
    }
  }

  /** Taking in the root x covers exactly x's component. */
  lemma {:induction false} CoveredRoot(c: Matrix, x: nat, t: nat)
    requires Equivalence(c) && x < |c| && t <= |c| && Least(c, x) == x
    ensures Covered(c, x + 1, t) == Covered(c, x, t) + |ClassBelow(c, x, t)|
  {
    if t > 0 {
      CoveredRoot(c, x, t - 1);
      LeastLinked(c, x, t - 1);
    }
  }

  /** A node other than a root starts no component. */
  lemma {:induction false} CoveredOther(c: Matrix, x: nat, t: nat)
    requires Equivalence(c) && x < |c| && t <= |c| && Least(c, x) != x
    ensures Covered(c, x + 1, t) == Covered(c, x, t)
  {
    if t > 0 {
      CoveredOther(c, x, t - 1);
      LeastLinked(c, x, t - 1);
    }
  }

  /** No root between x and t: the roots below x are all the roots below t. */
  lemma {:induction false} RootsFrom(c: Matrix, x: nat, t: nat)
    requires x <= t && forall y :: x <= y < t ==> Least(c, y) < x
    ensures Roots(c, x) == Roots(c, t)
  {
    if t > x {
      RootsFrom(c, x, t - 1);
    }
  }

  /** Nothing below a root is linked to it. */
  lemma {:induction false} ClassEmpty(c: Matrix, x: nat, t: nat)
    requires Equivalence(c) && x < |c| && Least(c, x) == x && t <= x
    ensures ClassBelow(c, x, t) == []
  {
    if t > 0 {
      ClassEmpty(c, x, t - 1);
      if Linked(c, x, t - 1) {
        LinkedBack(c, x, t - 1);
      }
    }
  }

  /** The state of the scan of connected_components_from_matrix before node
      `node`: the components of the roots below node are listed; a node is
      visited when it lies in one of them and is not its root; count is the
      number of nodes they cover. */
  ghost predicate Scan(c: Matrix, node: nat, count: nat, visited: seq<bool>, comps: seq<seq<nat>>) {
    && node <= |c| && |visited| == |c|
    && count == Covered(c, node, |c|)
    && (forall y :: 0 <= y < |c| ==> (visited[y] <==> Least(c, y) < node && Least(c, y) != y))
    && |comps| == |Roots(c, node)|
    && (forall i :: 0 <= i < |comps| ==> comps[i] == ClassBelow(c, Roots(c, node)[i], |c|))
  }

  /** The inner loop (graph/connectivity.py:254-258): the nodes after the
      root x linked to it join its component and are marked visited. */
  method Gather(c: Matrix, x: nat, count: nat, visited: seq<bool>)
    returns (component: seq<nat>, count': nat, visited': seq<bool>)
    requires Equivalence(c) && x < |c| && Least(c, x) == x
    requires |visited| == |c| && forall y :: 0 <= y < |c| ==> (visited[y] <==> Least(c, y) < x && Least(c, y) != y)
    ensures component == ClassBelow(c, x, |c|)
    ensures count' == count + |component|
    ensures |visited'| == |c| && forall y :: 0 <= y < |c| ==> (visited'[y] <==> Least(c, y) < x + 1 && Least(c, y) != y)
  {
    ClassEmpty(c, x, x);
    component := [x];
    count', visited' := count + 1, visited;
    var y := x + 1;
    while y < |c|
      invariant x < y <= |c| && component == ClassBelow(c, x, y) && count' == count + |component|
      invariant |visited'| == |c|
      invariant forall z :: 0 <= z < |c| ==>
        (visited'[z] <==> (Least(c, z) < x && Least(c, z) != z) || (x < z < y && Least(c, z) == x))
    {
      LeastLinked(c, x, y);
      if c[x][y] {
        component := component + [y];
        visited' := visited'[y := true];
        count' := count' + 1;
      }
      y := y + 1;
    }
  }

  /** Nothing is covered before the scan. */
  lemma {:induction false} CoveredNone(c: Matrix, t: nat)
    ensures Covered(c, 0, t) == 0
  {
    if t > 0 {
      CoveredNone(c, t - 1);
    }
  }

  /** A root's component, gathered, extends the scan past the root. */
  lemma ScanRoot(c: Matrix, node: nat, count: nat, visited: seq<bool>, comps: seq<seq<nat>>,
                 component: seq<nat>, count': nat, visited': seq<bool>)
    requires Equivalence(c) && Scan(c, node, count, visited, comps) && node < |c| && Least(c, node) == node
    requires component == ClassBelow(c, node, |c|) && count' == count + |component|
    requires |visited'| == |c| && forall y :: 0 <= y < |c| ==> (visited'[y] <==> Least(c, y) < node + 1 && Least(c, y) != y)
    ensures Scan(c, node + 1, count', visited', comps + [component])
  {
    CoveredRoot(c, node, |c|);
    var comps' := comps + [component];
    assert Roots(c, node + 1) == Roots(c, node) + [node];
    forall i | 0 <= i < |comps'|
      ensures comps'[i] == ClassBelow(c, Roots(c, node + 1)[i], |c|)
    {
      if i < |comps| {
        assert comps'[i] == comps[i] && Roots(c, node + 1)[i] == Roots(c, node)[i];
      }
    }
  }

  /** A visited node leaves the scan's lists as they are. */
  lemma ScanOther(c: Matrix, node: nat, count: nat, visited: seq<bool>, comps: seq<seq<nat>>)
    requires Equivalence(c) && Scan(c, node, count, visited, comps) && node < |c| && Least(c, node) != node
    ensures Scan(c, node + 1, count, visited, comps)
  {
    CoveredOther(c, node, |c|);
    assert Roots(c, node + 1) == Roots(c, node);
    forall y | 0 <= y < |c|
      ensures visited[y] <==> Least(c, y) < node + 1 && Least(c, y) != y
    {
      if Least(c, y) == node {
        LeastLinked(c, node, y);
      }
    }
  }

  /** connected_components_from_matrix (graph/connectivity.py:234-262), on
      the matrix of an undirected graph: one list per component of the
      closure, in the order of their smallest nodes, each listing the nodes
      linked to its first one in ascending order. Warshall's closure is
      written into the caller's matrix (:241, :182-185); it is returned as
      c, which by UptoPaths is set exactly where a path of at least one
      edge joins the ends. */
  method ComponentsFromMatrix(a: Matrix) returns (c: Matrix, comps: seq<seq<nat>>)
    requires Square(a) && Mirrored(a)
    ensures c == Upto(a, |a|)
    ensures |comps| == |Roots(Upto(a, |a|), |a|)|
    ensures forall i :: 0 <= i < |comps| ==> comps[i] == ClassBelow(Upto(a, |a|), Roots(Upto(a, |a|), |a|)[i], |a|)
  {
    c := Warshall(a);
    ClosureEquivalence(a);
    comps := Components(c);
  }

  /** The scan of connected_components_from_matrix (graph/connectivity.py:
      243-262) over a closed, mirrored matrix c. `count` counts the nodes
      listed so far; the scan stops when all are. */
  method Components(c: Matrix) returns (comps: seq<seq<nat>>)
    requires Equivalence(c)
    ensures |comps| == |Roots(c, |c|)|
    ensures forall i :: 0 <= i < |comps| ==> comps[i] == ClassBelow(c, Roots(c, |c|)[i], |c|)
  {
    var n := |c|;
    comps := [];
    var count: nat := 0;
    var node := 0;
    var visited := seq(n, _ => false);
    CoveredNone(c, n);
    while count < n
      invariant Scan(c, node, count, visited, comps)
      decreases n - node
    {
      CoveredLow(c, node, n);
      if !visited[node] {
        var component, count', visited' := Gather(c, node, count, visited);
        ScanRoot(c, node, count, visited, comps, component, count', visited');
        comps, count, visited := comps + [component], count', visited';
      } else {
        ScanOther(c, node, count, visited, comps);
      }
      node := node + 1;
    }
    forall y | node <= y < n
      ensures Least(c, y) < node
    {
      CoveredAll(c, node, n, y);
    }
    RootsFrom(c, node, n);
  }

  /** The lists of ComponentsFromMatrix partition the nodes: each node lies
      in the list of its component's smallest node, and two nodes share a
      list exactly when a path of the graph joins them. */
  lemma Partition(a: Matrix, y: nat, z: nat)
    requires Square(a) && Mirrored(a) && y < |a| && z < |a|
    ensures Least(Upto(a, |a|), y) in Roots(Upto(a, |a|), |a|)
    ensures y in ClassBelow(Upto(a, |a|), Least(Upto(a, |a|), y), |a|)
    ensures z in ClassBelow(Upto(a, |a|), Least(Upto(a, |a|), y), |a|) <==> y == z || PathIn(a, y, z, |a|)
  {
    var c := Upto(a, |a|);
    ClosureEquivalence(a);
    var r := Least(c, y);
    LeastLinked(c, r, y);
    LeastLinked(c, r, z);
    LeastLinked(c, y, z);
    ClosesAt(a, y, z);
    RootsMembers(c, |a|);
    ClassMembers(c, r, |a|);
  }
}
