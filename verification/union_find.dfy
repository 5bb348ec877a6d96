/**
 * The union-find of graph/connectivity.py:15-77. The state is the `fathers`
 * list: a root holds a negative number (minus the size of its set when the
 * sets are joined by size), every other node holds the index of its father.
 */
module UnionFind {
  import opened Graphs

  /** Every father link names a node. */
  predicate InRange(f: seq<int>) {
    forall i :: 0 <= i < |f| ==> f[i] < |f|
  }

  /** Following father links from n reaches a root after exactly d links. */
  ghost predicate DepthIs(f: seq<int>, n: nat, d: nat)
    requires InRange(f) && n < |f|
    decreases d
  {
    if f[n] < 0 then d == 0 else d > 0 && DepthIs(f, f[n], d - 1)
  }

  ghost predicate Rooted(f: seq<int>, n: nat)
    requires InRange(f) && n < |f|
  {
    exists d :: DepthIs(f, n, d)
  }

  /** The fathers list describes a forest: no father chain runs in a cycle. */
  ghost predicate IsForest(f: seq<int>) {
    InRange(f) && forall n :: 0 <= n < |f| ==> Rooted(f, n)
  }

  lemma DepthUnique(f: seq<int>, n: nat, d1: nat, d2: nat)
    requires InRange(f) && n < |f| && DepthIs(f, n, d1) && DepthIs(f, n, d2)
    ensures d1 == d2
    decreases d1
  {
    if f[n] >= 0 {
      DepthUnique(f, f[n], d1 - 1, d2 - 1);
    }
  }

  /** Number of links from n up to its root. */
  ghost function Depth(f: seq<int>, n: nat): (d: nat)
    requires InRange(f) && n < |f| && Rooted(f, n)
    ensures DepthIs(f, n, d)
  {
    var d :| DepthIs(f, n, d); d
  }

  ghost function RootAt(f: seq<int>, n: nat, d: nat): (r: nat)
    requires InRange(f) && n < |f| && DepthIs(f, n, d)
    ensures r < |f| && f[r] < 0
    decreases d
  {
    if f[n] < 0 then n else RootAt(f, f[n], d - 1)
  }

  /** The root reached by following father links from n. */
  ghost function Root(f: seq<int>, n: nat): (r: nat)
    requires InRange(f) && n < |f| && Rooted(f, n)
    ensures r < |f| && f[r] < 0
  {
    RootAt(f, n, Depth(f, n))
  }

  /** n and m lie in the same set. */
  ghost predicate Same(f: seq<int>, n: nat, m: nat)
    requires IsForest(f) && n < |f| && m < |f|
  {
    Root(f, n) == Root(f, m)
  }

  lemma AtRoot(f: seq<int>, n: nat)
    requires InRange(f) && n < |f| && f[n] < 0
    ensures Rooted(f, n) && Depth(f, n) == 0 && Root(f, n) == n
  {
    assert DepthIs(f, n, 0);
  }

  /** One father link: depth drops by one and the root stays. */
  lemma Step(f: seq<int>, n: nat)
    requires InRange(f) && n < |f| && f[n] >= 0
    ensures Rooted(f, n) <==> Rooted(f, f[n])
    ensures Rooted(f, n) ==>
      Depth(f, n) == Depth(f, f[n]) + 1 && Root(f, n) == Root(f, f[n])
  {
    if Rooted(f, f[n]) {
      assert DepthIs(f, n, Depth(f, f[n]) + 1);
    }
    if Rooted(f, n) {
      var d := Depth(f, n);
      assert DepthIs(f, f[n], d - 1);
      DepthUnique(f, f[n], d - 1, Depth(f, f[n]));
    }
  }

  /** The non-root nodes met on the way from n up to its root, n first. */
  ghost function Walk(f: seq<int>, n: nat): (w: seq<nat>)
    requires IsForest(f) && n < |f|
    ensures forall m :: m in w ==> m < |f| && f[m] >= 0 && Root(f, m) == Root(f, n)
    ensures f[n] < 0 <==> w == []
    decreases Depth(f, n)
  {
    if f[n] < 0 then []
    else
      Step(f, n);
      [n] + Walk(f, f[n])
  }

  /** Redirecting some nodes straight to their own root changes no node's root. */
  lemma Compress(f: seq<int>, g: seq<int>)
    requires IsForest(f) && |g| == |f|
    requires forall m :: 0 <= m < |f| ==> g[m] == f[m] || (f[m] >= 0 && g[m] == Root(f, m))
    ensures IsForest(g)
    ensures forall m :: 0 <= m < |f| ==> Root(g, m) == Root(f, m)
  {
    forall m | 0 <= m < |f|
      ensures Rooted(g, m) && Root(g, m) == Root(f, m)
    {
      CompressNode(f, g, m);
    }
  }

  lemma CompressNode(f: seq<int>, g: seq<int>, m: nat)
    requires IsForest(f) && |g| == |f| && m < |f|
    requires forall m :: 0 <= m < |f| ==> g[m] == f[m] || (f[m] >= 0 && g[m] == Root(f, m))
    ensures InRange(g) && Rooted(g, m) && Root(g, m) == Root(f, m)
    decreases Depth(f, m)
  {
    assert InRange(g) by {
      forall i | 0 <= i < |g| ensures g[i] < |g| {
        assert g[i] == f[i] || g[i] == Root(f, i);
      }
    }
    if f[m] < 0 {
      AtRoot(f, m);
      AtRoot(g, m);
    } else if g[m] == Root(f, m) {
      var r := Root(f, m);
      assert g[r] == f[r];
      AtRoot(g, r);
      Step(g, m);
    } else {
      Step(f, m);
      CompressNode(f, g, f[m]);
      Step(g, m);
    }
  }

  /** The nodes of the set whose root is r. */
  ghost function Members(f: seq<int>, r: nat): set<nat>
    requires IsForest(f)
  {
    set m: nat | m < |f| && Root(f, m) == r
  }

  /** Every root holds minus the size of its set (graph/connectivity.py:72-73, 61). */
  ghost predicate SizesOk(f: seq<int>)
    requires IsForest(f)
  {
    forall r :: 0 <= r < |f| && f[r] < 0 ==> f[r] == -|Members(f, r)|
  }

  lemma CompressSizes(f: seq<int>, g: seq<int>)
    requires IsForest(f) && IsForest(g) && |g| == |f|
    requires forall m :: 0 <= m < |f| ==> Root(g, m) == Root(f, m)
    requires forall m :: 0 <= m < |f| && f[m] < 0 ==> g[m] == f[m]
    requires forall m :: 0 <= m < |f| && f[m] >= 0 ==> g[m] >= 0
    ensures SizesOk(f) ==> SizesOk(g)
  {
    forall r | 0 <= r < |g|
      ensures Members(g, r) == Members(f, r)
    {
    }
  }

  /** find (graph/connectivity.py:16-31): walks up to the root, then links
      every node of the walk straight to it. The source's tuple assignment at
      :29 rebinds `node` before the subscript, so only one link is rewritten
      (and, called on a root, it writes through a negative index); this model
      relinks the whole walk, as the docstring at :17-19 describes. */
  method Find(node: nat, fathers: seq<int>) returns (root: nat, f: seq<int>)
    requires IsForest(fathers) && node < |fathers|
    ensures root == Root(fathers, node) && fathers[root] < 0
    ensures |f| == |fathers|
    ensures forall m :: 0 <= m < |f| ==>
      f[m] == (if m in Walk(fathers, node) then root else fathers[m])
    ensures IsForest(f) && forall m :: 0 <= m < |f| ==> Root(f, m) == Root(fathers, m)
    ensures SizesOk(fathers) ==> SizesOk(f)
  {
    root := node;
    while fathers[root] >= 0
      invariant root < |fathers| && Root(fathers, root) == Root(fathers, node)
      decreases Depth(fathers, root)
    {
      Step(fathers, root);
      root := fathers[root];
    }
    AtRoot(fathers, root);

    // Relink the walk (the corrected form of :28-29).
    f := fathers;
    var cur: nat := node;
    ghost var done: seq<nat> := [];
    while cur != root
      invariant cur < |fathers| && Root(fathers, cur) == root
      invariant Walk(fathers, node) == done + Walk(fathers, cur)
      invariant forall m :: m in done ==> m < |fathers| && Depth(fathers, m) > Depth(fathers, cur)
      invariant |f| == |fathers|
      invariant forall m :: 0 <= m < |f| ==> f[m] == (if m in done then root else fathers[m])
      decreases Depth(fathers, cur)
    {
      assert fathers[cur] >= 0 by {
        if fathers[cur] < 0 { AtRoot(fathers, cur); }
      }
      Step(fathers, cur);
      var next: nat := f[cur];
      f := f[cur := root];
      done := done + [cur];
      cur := next;
    }
    assert Walk(fathers, root) == [];
    Compress(fathers, f);
    CompressSizes(fathers, f);
  }

  /** The root reached from n, computed by following the father links. */
  function RootOf(f: seq<int>, n: nat): (r: nat)
    requires IsForest(f) && n < |f|
    ensures r == Root(f, n) && f[r] < 0
    decreases Depth(f, n)
  {
    if f[n] < 0 then
      AtRoot(f, n);
      n
    else
      Step(f, n);
      RootOf(f, f[n])
  }

  /** find exactly as graph/connectivity.py:16-31 is written. The tuple
      assignment at :29 evaluates both right-hand values, then binds `node`
      before it subscripts `fathers[node]`, so it rewrites the link of the
      node's father, not of the node, and the test at :28 then stops the loop.
      Called on a root, the father is minus a set size, which Python reads as
      an index counted from the end of the list: the node found there is
      hung under the root (an IndexError once the size exceeds the list). */
  function FindAsWritten(node: nat, fathers: seq<int>): (r: Result<(nat, seq<int>)>)
    requires IsForest(fathers) && node < |fathers|
    ensures r.Err? <==> fathers[node] < -|fathers|
    ensures r.Err? ==> r.error == IndexOutOfRange
    ensures r.Ok? ==> r.value.0 == Root(fathers, node) && |r.value.1| == |fathers|
    ensures r.Ok? && fathers[node] >= 0 ==>
      && IsForest(r.value.1)
      && r.value.1[node] == fathers[node]
      && forall m :: 0 <= m < |fathers| ==> Root(r.value.1, m) == Root(fathers, m)
    ensures r.Ok? && fathers[node] < 0 ==>
      && r.value.1[|fathers| + fathers[node]] == node
      && forall m :: 0 <= m < |fathers| && m != |fathers| + fathers[node] ==> r.value.1[m] == fathers[m]
  {
    var root := RootOf(fathers, node);
    if fathers[node] < 0 then
      var k := |fathers| + fathers[node];
      if k < 0 then Err(IndexOutOfRange) else Ok((root, fathers[k := root]))
    else
      var up: nat := fathers[node];
      Step(fathers, node);
      if up == root then
        Ok((root, fathers))
      else
        assert fathers[up] >= 0 by {
          if fathers[up] < 0 { AtRoot(fathers, up); }
        }
        Compress(fathers, fathers[up := root]);
        Ok((root, fathers[up := root]))
  }

  /** Called on a root, the find as written merges two sets: on three
      singletons, find(0) hangs node 2 (index -1) under node 0, although the
      corrected Find leaves every root in place. */
  lemma FindAsWrittenMerges()
    ensures IsForest([-1, -1, -1]) && Root([-1, -1, -1], 2) == 2
    ensures FindAsWritten(0, [-1, -1, -1]) == Ok((0, [-1, -1, 0]))
    ensures IsForest([-1, -1, 0]) && Root([-1, -1, 0], 2) == 0
  {
    var f: seq<int> := [-1, -1, -1];
    AtRoot(f, 0);
    AtRoot(f, 1);
    AtRoot(f, 2);
    assert RootOf(f, 0) == 0;
    assert f[2 := 0] == [-1, -1, 0];
    var g: seq<int> := [-1, -1, 0];
    AtRoot(g, 0);
    AtRoot(g, 1);
    Step(g, 2);
  }

  /** Hanging root `lose` under root `win` merges exactly their two sets. */
  lemma Link(f: seq<int>, g: seq<int>, win: nat, lose: nat, x: int)
    requires IsForest(f) && win < |f| && lose < |f| && win != lose
    requires f[win] < 0 && f[lose] < 0 && x < 0
    requires g == f[win := x][lose := win]
    ensures IsForest(g)
    ensures forall m :: 0 <= m < |f| ==>
      Root(g, m) == (if Root(f, m) == lose then win else Root(f, m))
  {
    forall m | 0 <= m < |f|
      ensures Rooted(g, m) && Root(g, m) == (if Root(f, m) == lose then win else Root(f, m))
    {
      LinkNode(f, g, win, lose, x, m);
    }
  }

  lemma LinkNode(f: seq<int>, g: seq<int>, win: nat, lose: nat, x: int, m: nat)
    requires IsForest(f) && win < |f| && lose < |f| && win != lose
    requires f[win] < 0 && f[lose] < 0 && x < 0
    requires g == f[win := x][lose := win]
    requires m < |f|
    ensures InRange(g) && Rooted(g, m)
    ensures Root(g, m) == (if Root(f, m) == lose then win else Root(f, m))
    decreases Depth(f, m)
  {
    assert InRange(g);
    AtRoot(g, win);
    if m == lose {
      AtRoot(f, lose);
      Step(g, lose);
    } else if f[m] < 0 {
      AtRoot(f, m);
      AtRoot(g, m);
    } else {
      Step(f, m);
      LinkNode(f, g, win, lose, x, f[m]);
      Step(g, m);
    }
  }

  lemma LinkSizes(f: seq<int>, g: seq<int>, win: nat, lose: nat)
    requires IsForest(f) && SizesOk(f) && win < |f| && lose < |f| && win != lose
    requires f[win] < 0 && f[lose] < 0
    requires g == f[win := f[win] + f[lose]][lose := win]
    ensures IsForest(g) && SizesOk(g)
  {
    Link(f, g, win, lose, f[win] + f[lose]);
    AtRoot(f, win);
    AtRoot(f, lose);
    forall r | 0 <= r < |g| && g[r] < 0
      ensures g[r] == -|Members(g, r)|
    {
      if r == win {
        assert Members(g, win) == Members(f, win) + Members(f, lose);
        assert Members(f, win) !! Members(f, lose);
      } else {
        assert Members(g, r) == Members(f, r);
      }
    }
  }

  /** union (graph/connectivity.py:48-65): when the two roots differ, the
      root of the smaller set (by the size its negative entry records; a tie
      keeps node1's root) is hung under the other, whose entry then records
      the combined size. */
  method Union(node1: nat, node2: nat, fathers: seq<int>) returns (merged: bool, f: seq<int>)
    requires IsForest(fathers) && node1 < |fathers| && node2 < |fathers|
    ensures IsForest(f) && |f| == |fathers|
    ensures merged <==> !Same(fathers, node1, node2)
    ensures forall a, b :: 0 <= a < |f| && 0 <= b < |f| ==>
      (Same(f, a, b) <==>
        || Same(fathers, a, b)
        || (Same(fathers, a, node1) && Same(fathers, b, node2))
        || (Same(fathers, a, node2) && Same(fathers, b, node1)))
    ensures merged ==>
      var r1, r2 := Root(fathers, node1), Root(fathers, node2);
      var win := if fathers[r1] <= fathers[r2] then r1 else r2;
      var lose := if win == r1 then r2 else r1;
      && f[lose] == win && f[win] == fathers[r1] + fathers[r2]
      && forall m :: 0 <= m < |f| ==>
           Root(f, m) == (if Root(fathers, m) == lose then win else Root(fathers, m))
    ensures !merged ==> forall m :: 0 <= m < |f| ==> Root(f, m) == Root(fathers, m)
    ensures SizesOk(fathers) ==> SizesOk(f)
  {
    var root1, f1 := Find(node1, fathers);
    var root2, f2 := Find(node2, f1);
    assert f2[root1] == fathers[root1] && f2[root2] == fathers[root2];
    if root1 != root2 {
      var win, lose;
      f, win, lose := HangBySize(f2, root1, root2);
      MergedSame(fathers, f, node1, node2, win, lose);
      merged := true;
    } else {
      f := f2;
      KeptSame(fathers, f, node1, node2);
      merged := false;
    }
  }

  /** The joining step of union (graph/connectivity.py:58-64): the root
      whose entry records the smaller set (the first one on a tie) wins, its
      entry records the combined size, and the other root is hung under it. */
  method HangBySize(f0: seq<int>, r1: nat, r2: nat) returns (f: seq<int>, win: nat, lose: nat)
    requires IsForest(f0) && r1 < |f0| && r2 < |f0| && r1 != r2 && f0[r1] < 0 && f0[r2] < 0
    ensures win == (if f0[r1] <= f0[r2] then r1 else r2) && lose == (if win == r1 then r2 else r1)
    ensures IsForest(f) && |f| == |f0|
    ensures f[lose] == win && f[win] == f0[r1] + f0[r2]
    ensures forall m :: 0 <= m < |f| ==> Root(f, m) == (if Root(f0, m) == lose then win else Root(f0, m))
    ensures SizesOk(f0) ==> SizesOk(f)
  {
    win, lose := r1, r2;
    if f0[r1] > f0[r2] {
      win, lose := r2, r1;
    }
    f := f0[win := f0[win] + f0[lose]][lose := win];
    Link(f0, f, win, lose, f0[win] + f0[lose]);
    if SizesOk(f0) {
      LinkSizes(f0, f, win, lose);
    }
  }

  /** When one of the two roots is hung under the other, two nodes share a
      root exactly when they did before or sit on opposite sides of the join. */
  lemma MergedSame(f0: seq<int>, f: seq<int>, n1: nat, n2: nat, win: nat, lose: nat)
    requires IsForest(f0) && IsForest(f) && |f| == |f0| && n1 < |f0| && n2 < |f0|
    requires (win == Root(f0, n1) && lose == Root(f0, n2)) || (win == Root(f0, n2) && lose == Root(f0, n1))
    requires forall m :: 0 <= m < |f| ==> Root(f, m) == (if Root(f0, m) == lose then win else Root(f0, m))
    ensures forall a, b :: 0 <= a < |f| && 0 <= b < |f| ==>
      (Same(f, a, b) <==>
        || Same(f0, a, b)
        || (Same(f0, a, n1) && Same(f0, b, n2))
        || (Same(f0, a, n2) && Same(f0, b, n1)))
  {
  }

  /** When no root moves, two nodes share a root exactly when they did
      before; n1 and n2 were already together, so the join adds nothing. */
  lemma KeptSame(f0: seq<int>, f: seq<int>, n1: nat, n2: nat)
    requires IsForest(f0) && IsForest(f) && |f| == |f0| && n1 < |f0| && n2 < |f0|
    requires Root(f0, n1) == Root(f0, n2)
    requires forall m :: 0 <= m < |f| ==> Root(f, m) == Root(f0, m)
    ensures forall a, b :: 0 <= a < |f| && 0 <= b < |f| ==>
      (Same(f, a, b) <==>
        || Same(f0, a, b)
        || (Same(f0, a, n1) && Same(f0, b, n2))
        || (Same(f0, a, n2) && Same(f0, b, n1)))
  {
  }

  /** union_simple (graph/connectivity.py:34-45): node2's root is hung under
      node1's root and no size is recorded. */
  method UnionSimple(node1: nat, node2: nat, fathers: seq<int>) returns (merged: bool, f: seq<int>)
    requires IsForest(fathers) && node1 < |fathers| && node2 < |fathers|
    ensures IsForest(f) && |f| == |fathers|
    ensures merged <==> !Same(fathers, node1, node2)
    ensures forall m :: 0 <= m < |f| ==>
      Root(f, m) == (if Root(fathers, m) == Root(fathers, node2) then Root(fathers, node1)
                     else Root(fathers, m))
  {
    var root1, f1 := Find(node1, fathers);
    var root2, f2 := Find(node2, f1);
    assert f2[root1] == fathers[root1] && f2[root2] == fathers[root2];
    if root1 != root2 {
      f := f2[root2 := root1];
      assert f == f2[root1 := f2[root1]][root2 := root1];
      Link(f2, f, root1, root2, f2[root1]);
      merged := true;
    } else {
      f := f2;
      merged := false;
    }
  }

  // ---------------------------------------------------------------------
  // Connectivity through a list of node pairs, the reference for union_find.

  /** Some pair joins x and y, in either order. */
  ghost predicate Linked(pairs: seq<(nat, nat)>, x: nat, y: nat) {
    exists i :: 0 <= i < |pairs| && (pairs[i] == (x, y) || pairs[i] == (y, x))
  }

  ghost predicate IsChain(pairs: seq<(nat, nat)>, p: seq<nat>) {
    |p| > 0 && forall i :: 0 <= i < |p| - 1 ==> Linked(pairs, p[i], p[i + 1])
  }

  /** a and b are joined by a chain of pairs (a == b counts). */
  ghost predicate Connected(pairs: seq<(nat, nat)>, a: nat, b: nat) {
    exists p :: IsChain(pairs, p) && p[0] == a && p[|p| - 1] == b
  }

  lemma ConnectedRefl(pairs: seq<(nat, nat)>, a: nat)
    ensures Connected(pairs, a, a)
  {
    assert IsChain(pairs, [a]);
  }

  lemma ConnectedLinked(pairs: seq<(nat, nat)>, a: nat, b: nat)
    requires Linked(pairs, a, b)
    ensures Connected(pairs, a, b)
  {
    assert IsChain(pairs, [a, b]);
  }

  lemma ConnectedSym(pairs: seq<(nat, nat)>, a: nat, b: nat)
    requires Connected(pairs, a, b)
    ensures Connected(pairs, b, a)
  {
    var p :| IsChain(pairs, p) && p[0] == a && p[|p| - 1] == b;
    var q := seq(|p|, i requires 0 <= i < |p| => p[|p| - 1 - i]);
    forall i | 0 <= i < |q| - 1 ensures Linked(pairs, q[i], q[i + 1]) {
      var j := |p| - 2 - i;
      assert Linked(pairs, p[j], p[j + 1]);
    }
    assert IsChain(pairs, q);
  }

  lemma ConnectedTrans(pairs: seq<(nat, nat)>, a: nat, b: nat, c: nat)
    requires Connected(pairs, a, b) && Connected(pairs, b, c)
    ensures Connected(pairs, a, c)
  {
    var p :| IsChain(pairs, p) && p[0] == a && p[|p| - 1] == b;
    var q :| IsChain(pairs, q) && q[0] == b && q[|q| - 1] == c;
    var r := p + q[1..];
    forall i | 0 <= i < |r| - 1 ensures Linked(pairs, r[i], r[i + 1]) {
      if i < |p| - 1 {
        assert Linked(pairs, p[i], p[i + 1]);
      } else {
        assert r[i] == q[i - |p| + 1] && r[i + 1] == q[i - |p| + 2];
        assert Linked(pairs, q[i - |p| + 1], q[i - |p| + 2]);
      }
    }
    assert IsChain(pairs, r);
    assert r[|r| - 1] == c by {
      if |q| > 1 { assert r[|r| - 1] == q[|q| - 1]; }
    }
  }

  lemma ConnectedGrow(pairs: seq<(nat, nat)>, e: (nat, nat), a: nat, b: nat)
    requires Connected(pairs, a, b)
    ensures Connected(pairs + [e], a, b)
  {
    var p :| IsChain(pairs, p) && p[0] == a && p[|p| - 1] == b;
    forall i | 0 <= i < |p| - 1 ensures Linked(pairs + [e], p[i], p[i + 1]) {
      assert Linked(pairs, p[i], p[i + 1]);
      var j :| 0 <= j < |pairs| && (pairs[j] == (p[i], p[i + 1]) || pairs[j] == (p[i + 1], p[i]));
      assert (pairs + [e])[j] == pairs[j];
    }
    assert IsChain(pairs + [e], p);
  }

  /** One more pair (x, y) connects a and b exactly when they were already
      connected or each sits on one side of the new pair. */
  lemma ConnectedSnoc(pairs: seq<(nat, nat)>, e: (nat, nat), a: nat, b: nat)
    ensures Connected(pairs + [e], a, b) <==>
      || Connected(pairs, a, b)
      || (Connected(pairs, a, e.0) && Connected(pairs, e.1, b))
      || (Connected(pairs, a, e.1) && Connected(pairs, e.0, b))
  {
    var ps := pairs + [e];
    if Connected(ps, a, b) {
      var p :| IsChain(ps, p) && p[0] == a && p[|p| - 1] == b;
      SnocSplit(pairs, e, p);
    }
    assert Linked(ps, e.0, e.1) by { assert ps[|pairs|] == e; }
    ConnectedLinked(ps, e.0, e.1);
    ConnectedSym(ps, e.0, e.1);
    if Connected(pairs, a, b) {
      ConnectedGrow(pairs, e, a, b);
    }
    if Connected(pairs, a, e.0) && Connected(pairs, e.1, b) {
      ConnectedGrow(pairs, e, a, e.0);
      ConnectedGrow(pairs, e, e.1, b);
      ConnectedTrans(ps, a, e.0, e.1);
      ConnectedTrans(ps, a, e.1, b);
    }
    if Connected(pairs, a, e.1) && Connected(pairs, e.0, b) {
      ConnectedGrow(pairs, e, a, e.1);
      ConnectedGrow(pairs, e, e.0, b);
      ConnectedTrans(ps, a, e.1, e.0);
      ConnectedTrans(ps, a, e.0, b);
    }
  }

  lemma {:induction false} SnocSplit(pairs: seq<(nat, nat)>, e: (nat, nat), p: seq<nat>)
    requires IsChain(pairs + [e], p)
    ensures
      || Connected(pairs, p[0], p[|p| - 1])
      || (Connected(pairs, p[0], e.0) && Connected(pairs, e.1, p[|p| - 1]))
      || (Connected(pairs, p[0], e.1) && Connected(pairs, e.0, p[|p| - 1]))
    decreases |p|
  {
    var a := p[0];
    if |p| == 1 {
      ConnectedRefl(pairs, a);
    } else {
      var q := p[..|p| - 1];
      assert IsChain(pairs + [e], q) by {
        forall i | 0 <= i < |q| - 1 ensures Linked(pairs + [e], q[i], q[i + 1]) {
          assert q[i] == p[i] && q[i + 1] == p[i + 1];
        }
      }
      SnocSplit(pairs, e, q);
      var c, d := p[|p| - 2], p[|p| - 1];
      assert q[|q| - 1] == c;
      assert Linked(pairs + [e], c, d);
      var j :| 0 <= j < |pairs| + 1 && ((pairs + [e])[j] == (c, d) || (pairs + [e])[j] == (d, c));
      ConnectedRefl(pairs, e.0);
      ConnectedRefl(pairs, e.1);
      if j < |pairs| {
        assert Linked(pairs, c, d) by { assert pairs[j] == (pairs + [e])[j]; }
        ConnectedLinked(pairs, c, d);
        if Connected(pairs, a, c) {
          ConnectedTrans(pairs, a, c, d);
        }
        if Connected(pairs, e.1, c) {
          ConnectedTrans(pairs, e.1, c, d);
        }
        if Connected(pairs, e.0, c) {
          ConnectedTrans(pairs, e.0, c, d);
        }
      } else if (c, d) == e {
        if Connected(pairs, a, e.1) && Connected(pairs, e.0, c) {
          assert Connected(pairs, a, d);
        }
      } else {
        assert (d, c) == e;
        if Connected(pairs, a, e.0) && Connected(pairs, e.1, c) {
          assert Connected(pairs, a, d);
        }
      }
    }
  }

  /** Before any pair is joined, every node is the root of its own set of size 1. */
  lemma Singletons(n: nat)
    ensures var f := seq(n, _ => -1);
      && IsForest(f) && SizesOk(f)
      && forall a, b :: 0 <= a < n && 0 <= b < n ==> (Same(f, a, b) <==> Connected([], a, b))
  {
    var f: seq<int> := seq(n, _ => -1);
    forall m | 0 <= m < n ensures Rooted(f, m) && Root(f, m) == m {
      AtRoot(f, m);
    }
    forall r | 0 <= r < n ensures Members(f, r) == {r} { }
    forall a, b | 0 <= a < n && 0 <= b < n
      ensures Same(f, a, b) <==> Connected([], a, b)
    {
      if Connected([], a, b) {
        var p :| IsChain([], p) && p[0] == a && p[|p| - 1] == b;
        assert |p| > 1 ==> Linked([], p[0], p[1]);
      }
      if a == b { ConnectedRefl([], a); }
    }
  }

  /** Joining the sets of x and y tracks connectivity through one more pair. */
  lemma JoinStep(before: seq<int>, after: seq<int>, pairs: seq<(nat, nat)>, x: nat, y: nat)
    requires IsForest(before) && IsForest(after) && |after| == |before|
    requires x < |before| && y < |before|
    requires forall a, b :: 0 <= a < |before| && 0 <= b < |before| ==>
      (Same(before, a, b) <==> Connected(pairs, a, b))
    requires forall a, b :: 0 <= a < |after| && 0 <= b < |after| ==>
      (Same(after, a, b) <==>
        || Same(before, a, b)
        || (Same(before, a, x) && Same(before, b, y))
        || (Same(before, a, y) && Same(before, b, x)))
    ensures forall a, b :: 0 <= a < |after| && 0 <= b < |after| ==>
      (Same(after, a, b) <==> Connected(pairs + [(x, y)], a, b))
  {
    forall a, b | 0 <= a < |after| && 0 <= b < |after|
      ensures Same(after, a, b) <==> Connected(pairs + [(x, y)], a, b)
    {
      ConnectedSnoc(pairs, (x, y), a, b);
      assert Same(before, b, y) <==> Connected(pairs, b, y);
      assert Same(before, b, x) <==> Connected(pairs, b, x);
      if Connected(pairs, y, b) { ConnectedSym(pairs, y, b); }
      if Connected(pairs, b, y) { ConnectedSym(pairs, b, y); }
      if Connected(pairs, x, b) { ConnectedSym(pairs, x, b); }
      if Connected(pairs, b, x) { ConnectedSym(pairs, b, x); }
    }
  }

  /** Every pair names two of the n nodes. */
  predicate PairsIn(n: nat, pairs: seq<(nat, nat)>) {
    forall i :: 0 <= i < |pairs| ==> pairs[i].0 < n && pairs[i].1 < n
  }

  /** union_find (graph/connectivity.py:68-77): every node starts as a root
      of a set of size 1, then every pair is joined. Afterwards two nodes
      share a root exactly when a chain of pairs connects them, and every
      root records the size of its set. A pair naming a node past the end
      raises IndexError in find (:27); the fathers list is union_find's own,
      so nothing of the partial work is seen. */
  method UnionFindAll(n: nat, pairs: seq<(nat, nat)>) returns (r: Result<seq<int>>)
    ensures r.Err? <==> !PairsIn(n, pairs)
    ensures r.Err? ==> r.error == IndexOutOfRange
    ensures r.Ok? ==> IsForest(r.value) && |r.value| == n && SizesOk(r.value)
    ensures r.Ok? ==> forall a, b :: 0 <= a < n && 0 <= b < n ==>
      (Same(r.value, a, b) <==> Connected(pairs, a, b))
  {
    if !PairsIn(n, pairs) {
      return Err(IndexOutOfRange);
    }
    var fathers := JoinAll(n, pairs);
    return Ok(fathers);
  }

  /** The loop of union_find over pairs that all name nodes. */
  method JoinAll(n: nat, pairs: seq<(nat, nat)>) returns (fathers: seq<int>)
    requires PairsIn(n, pairs)
    ensures IsForest(fathers) && |fathers| == n && SizesOk(fathers)
    ensures forall a, b :: 0 <= a < n && 0 <= b < n ==>
      (Same(fathers, a, b) <==> Connected(pairs, a, b))
  {
    fathers := seq(n, _ => -1);
    Singletons(n);
    var k := 0;
    while k < |pairs|
      invariant k <= |pairs|
      invariant IsForest(fathers) && |fathers| == n && SizesOk(fathers)
      invariant forall a, b :: 0 <= a < n && 0 <= b < n ==>
        (Same(fathers, a, b) <==> Connected(pairs[..k], a, b))
    {
      fathers := JoinPair(n, pairs[..k], fathers, pairs[k]);
      assert pairs[..k + 1] == pairs[..k] + [pairs[k]];
      k := k + 1;
    }
    assert pairs[..k] == pairs;
  }

  /** One round of union_find's loop (graph/connectivity.py:76-77): after the
      union, the sets are those of the pairs so far and e. */
  method JoinPair(n: nat, pairs: seq<(nat, nat)>, fathers: seq<int>, e: (nat, nat)) returns (f: seq<int>)
    requires IsForest(fathers) && |fathers| == n && SizesOk(fathers) && e.0 < n && e.1 < n
    requires forall a, b :: 0 <= a < n && 0 <= b < n ==>
      (Same(fathers, a, b) <==> Connected(pairs, a, b))
    ensures IsForest(f) && |f| == n && SizesOk(f)
    ensures forall a, b :: 0 <= a < n && 0 <= b < n ==>
      (Same(f, a, b) <==> Connected(pairs + [e], a, b))
  {
    var _, f' := Union(e.0, e.1, fathers);
    JoinStep(fathers, f', pairs, e.0, e.1);
    f := f';
  }
}
