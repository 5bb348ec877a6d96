/**
 * Connected-component maps built from a list of node pairs with the
 * union-find (graph/connectivity.py:101-157): every node gets the number of
 * its component, numbered from 1 in the order the components are first met.
 */
module Components {
  import opened Graphs
  import opened UnionFind

  /** Largest entry of s; 0 for the empty list. */
  function MaxOf(s: seq<nat>): (m: nat)
    ensures forall i :: 0 <= i < |s| ==> s[i] <= m
    ensures |s| > 0 ==> m in s
    ensures |s| == 0 ==> m == 0
  {
    if s == [] then 0
    else
      var t := MaxOf(s[..|s| - 1]);
      assert s == s[..|s| - 1] + [s[|s| - 1]];
      if s[|s| - 1] > t then s[|s| - 1] else t
  }

  /** Numbering in order of first appearance: each entry repeats an earlier
      one or is one more than every earlier one. */
  ghost predicate Canonical(ids: seq<nat>) {
    ids == [] ||
    var prefix, last := ids[..|ids| - 1], ids[|ids| - 1];
    Canonical(prefix) && (last in prefix || last == MaxOf(prefix) + 1)
  }

  /** ids numbers the components of the pairs' connectivity 1..count, in the
      ascending order of each component's smallest node. */
  ghost predicate IsComponentMap(n: nat, pairs: seq<(nat, nat)>, ids: seq<nat>, count: nat) {
    && |ids| == n
    && (forall v :: 0 <= v < n ==> 1 <= ids[v] <= count)
    && (forall k :: 1 <= k <= count ==> k in ids)
    && (forall a, b :: 0 <= a < n && 0 <= b < n ==> (ids[a] == ids[b] <==> Connected(pairs, a, b)))
    && Canonical(ids)
  }

  /** Two labellings group the nodes alike. */
  ghost predicate SamePartition(ids1: seq<nat>, ids2: seq<nat>) {
    |ids1| == |ids2| &&
    forall a, b :: 0 <= a < |ids1| && 0 <= b < |ids1| ==> (ids1[a] == ids1[b] <==> ids2[a] == ids2[b])
  }

  lemma {:induction false} CanonicalAt(ids: seq<nat>, k: nat)
    requires Canonical(ids) && k < |ids|
    ensures (exists u :: 0 <= u < k && ids[u] == ids[k]) || ids[k] == MaxOf(ids[..k]) + 1
  {
    var prefix := ids[..|ids| - 1];
    if k == |ids| - 1 {
      if ids[k] in prefix {
        var u :| 0 <= u < k && prefix[u] == ids[k];
      }
    } else {
      CanonicalAt(prefix, k);
      assert prefix[..k] == ids[..k];
      if u :| 0 <= u < k && prefix[u] == prefix[k] {
        assert ids[u] == ids[k];
      }
    }
  }

  lemma CanonicalNext(ids1: seq<nat>, ids2: seq<nat>, k: nat)
    requires Canonical(ids1) && Canonical(ids2) && SamePartition(ids1, ids2)
    requires k < |ids1| && ids1[..k] == ids2[..k]
    ensures ids1[k] == ids2[k]
  {
    CanonicalAt(ids1, k);
    CanonicalAt(ids2, k);
    if u :| 0 <= u < k && ids1[u] == ids1[k] {
      assert ids1[u] == ids1[..k][u] == ids2[..k][u] == ids2[u];
    }
  }

  /** Two numberings in order of first appearance of the same partition are
      equal. */
  lemma {:induction false} CanonicalUnique(ids1: seq<nat>, ids2: seq<nat>)
    requires Canonical(ids1) && Canonical(ids2) && SamePartition(ids1, ids2)
    ensures ids1 == ids2
  {
    var k := 0;
    while k < |ids1|
      invariant k <= |ids1| && forall i :: 0 <= i < k ==> ids1[i] == ids2[i]
    {
      assert ids1[..k] == ids2[..k];
      CanonicalNext(ids1, ids2, k);
      k := k + 1;
    }
  }

  /** Component maps are determined by the pairs: any two are equal. */
  lemma ComponentMapUnique(n: nat, pairs: seq<(nat, nat)>, ids1: seq<nat>, count1: nat,
                           ids2: seq<nat>, count2: nat)
    requires IsComponentMap(n, pairs, ids1, count1) && IsComponentMap(n, pairs, ids2, count2)
    ensures ids1 == ids2 && count1 == count2
  {
    assert SamePartition(ids1, ids2);
    CanonicalUnique(ids1, ids2);
    CountIsMax(ids1, count1);
    CountIsMax(ids2, count2);
  }

  /** A numbering onto 1..count has count as its largest entry. */
  lemma CountIsMax(ids: seq<nat>, count: nat)
    requires forall v :: 0 <= v < |ids| ==> 1 <= ids[v] <= count
    requires forall k :: 1 <= k <= count ==> k in ids
    ensures count == MaxOf(ids)
  {
    if count > 0 {
      assert count in ids;
    }
  }

  lemma MaxOfSnoc(s: seq<nat>, x: nat)
    ensures MaxOf(s + [x]) == if x > MaxOf(s) then x else MaxOf(s)
  {
    assert (s + [x])[..|s|] == s;
  }

  lemma CanonicalSnoc(s: seq<nat>, x: nat)
    requires Canonical(s)
    requires x in s || x == MaxOf(s) + 1
    ensures Canonical(s + [x])
  {
    assert (s + [x])[..|s|] == s;
  }

  /** R sends every node to the representative of its set, which represents
      itself. */
  ghost predicate IsRootMap(R: seq<nat>) {
    && (forall m :: 0 <= m < |R| ==> R[m] < |R|)
    && (forall m {:trigger R[R[m]]} :: 0 <= m < |R| ==> R[R[m]] == R[m])
  }

  /** The roots of a forest, node by node. */
  ghost function Roots(f: seq<int>): (R: seq<nat>)
    requires IsForest(f)
    ensures |R| == |f|
    ensures forall m :: 0 <= m < |f| ==> R[m] == Root(f, m) && R[m] < |f| && f[R[m]] < 0
  {
    seq(|f|, m requires 0 <= m < |f| => Root(f, m))
  }

  lemma RootsIsRootMap(f: seq<int>)
    requires IsForest(f)
    ensures IsRootMap(Roots(f))
  {
    var R := Roots(f);
    forall m | 0 <= m < |R| ensures R[R[m]] == R[m] {
      AtRoot(f, R[m]);
    }
  }

  /** No number exceeds count. */
  ghost predicate Bounded(ids: seq<nat>, count: nat) {
    forall v :: 0 <= v < |ids| ==> ids[v] <= count
  }

  lemma BoundedUpdate(ids: seq<nat>, count: nat, i: nat, j: nat, x: nat, count': nat)
    requires Bounded(ids, count) && i < |ids| && j < |ids| && x <= count' && count <= count'
    ensures Bounded(ids[i := x][j := x], count')
  {
    var ids' := ids[i := x][j := x];
    forall v | 0 <= v < |ids'| ensures ids'[v] <= count' {
      if v != i && v != j {
        assert ids'[v] == ids[v];
      }
    }
  }

  /** Nodes 0..node-1 carry the (non-zero) number of their root. */
  ghost predicate FollowRoots(R: seq<nat>, ids: seq<nat>, node: nat)
    requires IsRootMap(R) && |ids| == |R| && node <= |R|
  {
    forall v {:trigger R[v]} :: 0 <= v < node ==> ids[v] >= 1 && ids[v] == ids[R[v]]
  }

  lemma FollowRootsAt(R: seq<nat>, ids: seq<nat>, node: nat, v: nat)
    requires IsRootMap(R) && |ids| == |R| && node <= |R| && FollowRoots(R, ids, node) && v < |R|
    ensures v < node ==> ids[v] >= 1
  {
    assert R[v] < |R|;
  }

  /** Every numbered root is the root of one of the nodes 0..node-1, namely
      first[r]. */
  ghost predicate RootsReached(R: seq<nat>, first: seq<nat>, ids: seq<nat>, node: nat)
    requires |ids| == |R| && node <= |R|
  {
    |first| == |R| &&
    forall r {:trigger first[r]} :: 0 <= r < |R| && R[r] == r && ids[r] != 0 ==> first[r] < node && R[first[r]] == r
  }

  /** Distinct roots carry distinct numbers. */
  ghost predicate RootsDistinct(R: seq<nat>, ids: seq<nat>)
    requires |ids| == |R|
  {
    forall r1, r2 ::
      0 <= r1 < |R| && 0 <= r2 < |R| && R[r1] == r1 && R[r2] == r2 && ids[r1] != 0 && ids[r1] == ids[r2]
      ==> r1 == r2
  }

  /** The first node entries are numbered 1..count in order of first appearance. */
  ghost predicate NumberedPrefix(ids: seq<nat>, count: nat, node: nat)
    requires node <= |ids|
  {
    count == MaxOf(ids[..node]) && Canonical(ids[..node]) &&
    forall k :: 1 <= k <= count ==> k in ids[..node]
  }

  /** Appending an entry that repeats an earlier number or opens the next one
      keeps a prefix numbered in order of first appearance. */
  lemma NumberedNext(ids: seq<nat>, count: nat, node: nat, ids': seq<nat>, count': nat)
    requires node < |ids| == |ids'| && NumberedPrefix(ids, count, node)
    requires ids'[..node] == ids[..node]
    requires (ids'[node] in ids[..node] && count' == count) || (ids'[node] == count + 1 == count')
    ensures NumberedPrefix(ids', count', node + 1)
  {
    assert ids'[..node + 1] == ids[..node] + [ids'[node]];
    MaxOfSnoc(ids[..node], ids'[node]);
    CanonicalSnoc(ids[..node], ids'[node]);
    var t := ids'[..node + 1];
    forall k | 1 <= k <= count' ensures k in t {
      if k <= count {
        assert k in ids[..node];
      }
    }
  }

  /** Equal roots in the union-find's forest mean connected by the pairs. */
  lemma RootsConnected(n: nat, pairs: seq<(nat, nat)>, f: seq<int>)
    requires IsForest(f) && |f| == n
    requires forall a, b :: 0 <= a < n && 0 <= b < n ==> (Same(f, a, b) <==> Connected(pairs, a, b))
    ensures forall a, b :: 0 <= a < n && 0 <= b < n ==> (Roots(f)[a] == Roots(f)[b] <==> Connected(pairs, a, b))
  {
  }

  /** Numbers that follow the roots, distinct on distinct roots, number the
      components. */
  lemma NumbersFollowRoots(n: nat, pairs: seq<(nat, nat)>, R: seq<nat>, ids: seq<nat>, count: nat)
    requires IsRootMap(R) && |R| == n && |ids| == n
    requires forall a, b {:trigger Connected(pairs, a, b)} :: 0 <= a < n && 0 <= b < n ==>
      (R[a] == R[b] <==> Connected(pairs, a, b))
    requires Bounded(ids, count) && RootsDistinct(R, ids) && NumberedPrefix(ids, count, n)
    requires FollowRoots(R, ids, n)
    ensures IsComponentMap(n, pairs, ids, count)
  {
    assert ids[..n] == ids;
    forall v | 0 <= v < n ensures 1 <= ids[v] <= count {
      assert ids[v] == ids[R[v]];
    }
    forall a, b | 0 <= a < n && 0 <= b < n
      ensures ids[a] == ids[b] <==> Connected(pairs, a, b)
    {
      assert ids[a] == ids[R[a]] && ids[b] == ids[R[b]];
    }
  }

  // Ascending scan (connected_componnent_map_from_edges_better)

  /** The state of the ascending scan after nodes 0..node-1 are numbered. */
  ghost predicate ScanState(R: seq<nat>, first: seq<nat>, ids: seq<nat>, count: nat, node: nat)
    requires IsRootMap(R) && |ids| == |R| && node <= |R|
  {
    Bounded(ids, count) && FollowRoots(R, ids, node) && RootsReached(R, first, ids, node) &&
    RootsDistinct(R, ids) && NumberedPrefix(ids, count, node)
  }

  lemma ScanFollow(R: seq<nat>, ids: seq<nat>, node: nat, x: nat)
    requires IsRootMap(R) && |ids| == |R| && node < |R|
    requires FollowRoots(R, ids, node)
    requires x >= 1 && (ids[R[node]] == 0 || x == ids[R[node]])
    ensures FollowRoots(R, ids[R[node] := x][node := x], node + 1)
  {
    var ids' := ids[R[node] := x][node := x];
    forall v | 0 <= v < node + 1
      ensures ids'[v] >= 1 && ids'[v] == ids'[R[v]]
    {
      if v < node {
        assert ids[v] >= 1 && ids[v] == ids[R[v]];
        assert R[R[v]] == R[v];
        if R[v] == node {
          assert ids'[R[v]] == x;
        } else if R[v] == R[node] {
          assert ids'[R[v]] == x;
        } else {
          assert ids'[R[v]] == ids[R[v]];
        }
      }
    }
  }

  lemma ScanRoots(R: seq<nat>, first: seq<nat>, ids: seq<nat>, count: nat, node: nat, x: nat)
    requires IsRootMap(R) && |ids| == |R| && node < |R|
    requires Bounded(ids, count) && RootsReached(R, first, ids, node) && RootsDistinct(R, ids)
    requires (ids[R[node]] == 0 && x == count + 1) || (ids[R[node]] != 0 && x == ids[R[node]])
    ensures RootsReached(R, if ids[R[node]] == 0 then first[R[node] := node] else first,
                         ids[R[node] := x][node := x], node + 1)
    ensures RootsDistinct(R, ids[R[node] := x][node := x])
  {
    var ids' := ids[R[node] := x][node := x];
    var first' := if ids[R[node]] == 0 then first[R[node] := node] else first;
    assert R[R[node]] == R[node];
    forall r | 0 <= r < |R| && R[r] == r && ids'[r] != 0
      ensures first'[r] < node + 1 && R[first'[r]] == r
    {
      if r != R[node] {
        assert ids[r] != 0 && first'[r] == first[r];
      }
    }
  }

  /** One step of the scan: node takes its root's number x, which opens
      count + 1 when the root has none yet. */
  lemma ScanStep(R: seq<nat>, first: seq<nat>, ids: seq<nat>, count: nat, node: nat, x: nat,
                 first': seq<nat>, ids': seq<nat>, count': nat)
    requires IsRootMap(R) && |ids| == |R| && node < |R|
    requires ScanState(R, first, ids, count, node)
    requires (ids[R[node]] == 0 && x == count + 1) || (ids[R[node]] != 0 && x == ids[R[node]])
    requires ids' == ids[R[node] := x][node := x]
    requires first' == if ids[R[node]] == 0 then first[R[node] := node] else first
    requires count' == if ids[R[node]] == 0 then count + 1 else count
    ensures |ids'| == |R| && ScanState(R, first', ids', count', node + 1)
  {
    ScanPrefix(R, first, ids, count, node, x);
    BoundedUpdate(ids, count, R[node], node, x, count');
    NumberedNext(ids, count, node, ids', count');
    ScanFollow(R, ids, node, x);
    ScanRoots(R, first, ids, count, node, x);
  }

  /** The scan meets a root without a number: it opens count + 1. */
  lemma ScanNew(R: seq<nat>, first: seq<nat>, ids: seq<nat>, count: nat, node: nat, root: nat,
                first': seq<nat>, ids': seq<nat>, count': nat)
    requires IsRootMap(R) && |ids| == |R| && node < |R| && root == R[node]
    requires ScanState(R, first, ids, count, node) && ids[root] == 0
    requires count' == count + 1 && ids' == ids[root := count'][node := count'] && first' == first[root := node]
    ensures |ids'| == |R| && ScanState(R, first', ids', count', node + 1)
  {
    ScanStep(R, first, ids, count, node, count + 1, first', ids', count');
  }

  /** The scan meets a numbered root: node copies its number. */
  lemma ScanOld(R: seq<nat>, first: seq<nat>, ids: seq<nat>, count: nat, node: nat, root: nat, ids': seq<nat>)
    requires IsRootMap(R) && |ids| == |R| && node < |R| && root == R[node]
    requires ScanState(R, first, ids, count, node) && ids[root] != 0
    requires ids' == ids[node := ids[root]]
    ensures |ids'| == |R| && ScanState(R, first, ids', count, node + 1)
  {
    assert ids[root := ids[root]] == ids;
    ScanStep(R, first, ids, count, node, ids[root], first, ids', count);
  }

  /** The scanned prefix is untouched, and x repeats a number of the prefix
      unless it is new. */
  lemma ScanPrefix(R: seq<nat>, first: seq<nat>, ids: seq<nat>, count: nat, node: nat, x: nat)
    requires IsRootMap(R) && |ids| == |R| && node < |R|
    requires FollowRoots(R, ids, node) && RootsReached(R, first, ids, node)
    requires (ids[R[node]] == 0 && x == count + 1) || (ids[R[node]] != 0 && x == ids[R[node]])
    ensures ids[R[node] := x][node := x][..node] == ids[..node]
    ensures ids[R[node]] != 0 ==> x in ids[..node]
  {
    var root := R[node];
    var ids' := ids[root := x][node := x];
    if ids[root] != 0 {
      assert R[root] == root;
      var u := first[root];
      assert ids[u] == ids[R[u]];
      assert ids[..node][u] == x;
    } else {
      FollowRootsAt(R, ids, node, root);
    }
    assert ids'[..node] == ids[..node];
  }

  lemma ScanStart(R: seq<nat>, first: seq<nat>, ids: seq<nat>)
    requires IsRootMap(R) && |first| == |ids| == |R|
    requires forall v :: 0 <= v < |ids| ==> ids[v] == 0
    ensures ScanState(R, first, ids, 0, 0)
  {
    assert ids[..0] == [];
  }

  /** Forests with the same roots have the same root map. */
  lemma SameRoots(f: seq<int>, g: seq<int>)
    requires IsForest(f) && IsForest(g) && |f| == |g|
    requires forall m :: 0 <= m < |f| ==> Root(g, m) == Root(f, m)
    ensures Roots(g) == Roots(f)
  {
  }

  /** union_find, seen through the root map of its result: equal roots mean
      connected by the pairs. */
  method ForestOf(n: nat, pairs: seq<(nat, nat)>) returns (fathers: seq<int>)
    requires PairsIn(n, pairs)
    ensures IsForest(fathers) && |fathers| == n && IsRootMap(Roots(fathers))
    ensures forall a, b {:trigger Connected(pairs, a, b)} :: 0 <= a < n && 0 <= b < n ==>
      (Roots(fathers)[a] == Roots(fathers)[b] <==> Connected(pairs, a, b))
  {
    fathers := JoinAll(n, pairs);
    RootsIsRootMap(fathers);
    RootsConnected(n, pairs, fathers);
  }

  /** find, seen through the root map: it returns node's root and leaves the
      root map as it was. */
  method FindRoot(node: nat, fathers: seq<int>) returns (root: nat, f: seq<int>)
    requires IsForest(fathers) && node < |fathers|
    ensures IsForest(f) && |f| == |fathers| && Roots(f) == Roots(fathers) && root == Roots(fathers)[node]
  {
    root, f := Find(node, fathers);
    SameRoots(fathers, f);
  }

  /** One pass of the scan (:114-119): node's root opens a new number when
      it has none, and node takes its root's number. */
  method Number(ghost R: seq<nat>, ghost first: seq<nat>, ids: seq<nat>, count: nat, node: nat, root: nat)
    returns (ids': seq<nat>, count': nat, ghost first': seq<nat>)
    requires IsRootMap(R) && |ids| == |R| && node < |R| && root == R[node]
    requires ScanState(R, first, ids, count, node)
    ensures |ids'| == |R| && ScanState(R, first', ids', count', node + 1)
    ensures ids'[node] == ids'[root] != 0
    ensures count' == if ids[root] == 0 then count + 1 else count
  {
    if ids[root] == 0 {
      // New connected component
      count' := count + 1;
      ids' := ids[root := count'][node := count'];
      first' := first[root := node];
      ScanNew(R, first, ids, count, node, root, first', ids', count');
    } else {
      ids', count', first' := ids[node := ids[root]], count, first;
      ScanOld(R, first, ids, count, node, root, ids');
    }
  }

  /** connected_componnent_map_from_edges_better (graph/connectivity.py:102-121):
      after union_find, nodes are scanned in ascending order; the first node
      of each root's set opens the next number and the others copy it. The
      source's "no number yet" is None; here it is 0, which no component uses. */
  method ComponentMapIterative(n: nat, pairs: seq<(nat, nat)>) returns (r: Result<(seq<nat>, nat)>)
    ensures r.Err? <==> !PairsIn(n, pairs)
    ensures r.Err? ==> r.error == IndexOutOfRange
    ensures r.Ok? ==> IsComponentMap(n, pairs, r.value.0, r.value.1)
  {
    if !PairsIn(n, pairs) {
      return Err(IndexOutOfRange);
    }
    var ids, count := NumberRoots(n, pairs);
    return Ok((ids, count));
  }

  /** The scan of connected_componnent_map_from_edges_better over pairs
      that all name nodes. */
  method NumberRoots(n: nat, pairs: seq<(nat, nat)>) returns (ids: seq<nat>, count: nat)
    requires PairsIn(n, pairs)
    ensures IsComponentMap(n, pairs, ids, count)
  {
    var fathers := ForestOf(n, pairs);
    ghost var R := Roots(fathers);
    ghost var first: seq<nat> := seq(n, _ => 0);
    ids := seq(n, _ => 0);
    count := 0;
    ScanStart(R, first, ids);
    var node: nat := 0;
    while node < n
      invariant node <= n && |ids| == n && IsForest(fathers) && |fathers| == n
      invariant Roots(fathers) == R
      invariant ScanState(R, first, ids, count, node)
    {
      var root, f := FindRoot(node, fathers);
      fathers := f;
      ids, count, first := Number(R, first, ids, count, node, root);
      node := node + 1;
    }
    NumbersFollowRoots(n, pairs, R, ids, count);
  }

  // Recursive numbering (connected_componnent_map_from_edges)

  /** Numbered nodes carry their root's number, distinct roots distinct
      numbers, and no number exceeds count. */
  ghost predicate Consistent(R: seq<nat>, ids: seq<nat>, count: nat)
    requires IsRootMap(R) && |ids| == |R|
  {
    && Bounded(ids, count)
    && (forall v {:trigger R[v]} :: 0 <= v < |R| && ids[v] != 0 ==> ids[R[v]] == ids[v])
    && RootsDistinct(R, ids)
  }

  /** __parent_aux (graph/connectivity.py:129-141): the number of node's
      set, found by climbing father links until a numbered node or a root;
      an unnumbered root opens number count + 1; every node climbed through
      is numbered on the way back. R is the forest's root map. */
  method ParentAux(f: seq<int>, ghost R: seq<nat>, ids: seq<nat>, node: nat, count: nat)
    returns (num: nat, ids': seq<nat>)
    requires IsForest(f) && R == Roots(f) && IsRootMap(R)
    requires |ids| == |f| && node < |f| && Consistent(R, ids, count)
    ensures |ids'| == |f|
    ensures num >= 1 && ids'[node] == num && ids'[R[node]] == num
    ensures ids[R[node]] != 0 ==> num == ids[R[node]]
    ensures ids[R[node]] == 0 ==> num == count + 1
    ensures Consistent(R, ids', if num > count then num else count)
    ensures forall v :: 0 <= v < |f| && ids'[v] != ids[v] ==> ids[v] == 0 && R[v] == R[node]
    decreases Depth(f, node)
  {
    if ids[node] != 0 {
      // Already found
      return ids[node], ids;
    }
    if f[node] < 0 {
      // Root (new connected component)
      AtRoot(f, node);
      return count + 1, ids[node := count + 1];
    }
    Step(f, node);
    num, ids' := ParentAux(f, R, ids, f[node], count);
    ids' := ids'[node := num];
  }

  /** The state of the recursive numbering after nodes 0..node-1. */
  ghost predicate WalkState(R: seq<nat>, first: seq<nat>, ids: seq<nat>, count: nat, node: nat)
    requires IsRootMap(R) && |ids| == |R| && node <= |R|
  {
    && Consistent(R, ids, count)
    && (forall v :: 0 <= v < node ==> ids[v] != 0)
    && RootsReached(R, first, ids, node)
    && NumberedPrefix(ids, count, node)
  }

  /** One step on an unnumbered node, numbered as ParentAux promises. */
  lemma WalkStepNew(R: seq<nat>, first: seq<nat>, ids: seq<nat>, count: nat, node: nat,
                    num: nat, ids': seq<nat>, count': nat)
    requires IsRootMap(R) && |ids| == |R| && node < |R|
    requires WalkState(R, first, ids, count, node) && ids[node] == 0
    requires |ids'| == |R| && num >= 1 && ids'[node] == num && ids'[R[node]] == num
    requires ids[R[node]] != 0 ==> num == ids[R[node]]
    requires ids[R[node]] == 0 ==> num == count + 1
    requires Consistent(R, ids', count')
    requires forall v :: 0 <= v < |R| && ids'[v] != ids[v] ==> ids[v] == 0 && R[v] == R[node]
    requires count' == if num > count then num else count
    ensures WalkState(R, if ids[R[node]] == 0 then first[R[node] := node] else first, ids', count', node + 1)
  {
    WalkReached(R, first, ids, node, ids');
    WalkNumbered(R, first, ids, count, node, num, ids', count');
    forall v | 0 <= v < node + 1 ensures ids'[v] != 0 {
      if v < node {
        assert ids[v] != 0;
      }
    }
  }

  /** After numbering node, every numbered root is still reached by an
      earlier node, node itself for a root numbered just now. */
  lemma WalkReached(R: seq<nat>, first: seq<nat>, ids: seq<nat>, node: nat, ids': seq<nat>)
    requires IsRootMap(R) && |ids| == |R| && node < |R|
    requires RootsReached(R, first, ids, node) && ids[node] == 0
    requires |ids'| == |R| && ids'[R[node]] != 0
    requires forall v :: 0 <= v < |R| && ids'[v] != ids[v] ==> ids[v] == 0 && R[v] == R[node]
    ensures RootsReached(R, if ids[R[node]] == 0 then first[R[node] := node] else first, ids', node + 1)
  {
    var root := R[node];
    var first' := if ids[root] == 0 then first[root := node] else first;
    assert R[root] == root;
    forall r | 0 <= r < |R| && R[r] == r && ids'[r] != 0
      ensures first'[r] < node + 1 && R[first'[r]] == r
    {
      if r != root {
        assert ids[r] != 0 && first'[r] == first[r];
      }
    }
  }

  /** After numbering node, the prefix up to node is numbered in order of
      first appearance. */
  lemma WalkNumbered(R: seq<nat>, first: seq<nat>, ids: seq<nat>, count: nat, node: nat,
                     num: nat, ids': seq<nat>, count': nat)
    requires IsRootMap(R) && |ids| == |R| && node < |R|
    requires WalkState(R, first, ids, count, node) && ids[node] == 0
    requires |ids'| == |R| && ids'[node] == num
    requires ids[R[node]] != 0 ==> num == ids[R[node]]
    requires ids[R[node]] == 0 ==> num == count + 1
    requires forall v :: 0 <= v < |R| && ids'[v] != ids[v] ==> ids[v] == 0 && R[v] == R[node]
    requires count' == if num > count then num else count
    ensures NumberedPrefix(ids', count', node + 1)
  {
    var root := R[node];
    assert R[root] == root;
    if ids[root] != 0 {
      var u := first[root];
      assert ids[u] == ids[R[u]];
      assert ids'[node] in ids[..node];
    }
    assert ids'[..node] == ids[..node] by {
      forall v | 0 <= v < node ensures ids'[v] == ids[v] {
        assert ids[v] != 0;
      }
    }
    NumberedNext(ids, count, node, ids', count');
  }

  /** One step on a node already numbered while climbing from an earlier one. */
  lemma WalkStepKnown(R: seq<nat>, first: seq<nat>, ids: seq<nat>, count: nat, node: nat)
    requires IsRootMap(R) && |ids| == |R| && node < |R|
    requires WalkState(R, first, ids, count, node) && ids[node] != 0
    ensures WalkState(R, first, ids, count, node + 1)
  {
    var root := R[node];
    assert R[root] == root && ids[root] == ids[node];
    var u := first[root];
    assert u < node && R[u] == root;
    assert ids[u] == ids[R[u]];
    assert ids[..node][u] == ids[node];
    NumberedNext(ids, count, node, ids, count);
  }

  /** After the last node every node carries its root's number. */
  lemma WalkDone(R: seq<nat>, first: seq<nat>, ids: seq<nat>, count: nat)
    requires IsRootMap(R) && |ids| == |R| && WalkState(R, first, ids, count, |R|)
    ensures FollowRoots(R, ids, |R|)
  {
  }

  /** One turn of the loop at graph/connectivity.py:150-154: an unnumbered
      node gets its set's number through ParentAux, and count follows it. */
  method Visit(f: seq<int>, ghost R: seq<nat>, ghost first: seq<nat>, ids: seq<nat>, count: nat, node: nat)
    returns (ids': seq<nat>, count': nat, ghost first': seq<nat>)
    requires IsForest(f) && R == Roots(f) && IsRootMap(R) && |ids| == |f| && node < |f|
    requires WalkState(R, first, ids, count, node)
    ensures |ids'| == |f| && WalkState(R, first', ids', count', node + 1)
  {
    if ids[node] == 0 {
      var num;
      num, ids' := ParentAux(f, R, ids, node, count);
      count' := if num > count then num else count;
      WalkStepNew(R, first, ids, count, node, num, ids', count');
      first' := if ids[R[node]] == 0 then first[R[node] := node] else first;
    } else {
      WalkStepKnown(R, first, ids, count, node);
      ids', count', first' := ids, count, first;
    }
  }

  /** connected_componnent_map_from_edges (graph/connectivity.py:124-157):
      the same union_find (inlined at :144-146), then every still unnumbered
      node in ascending order is numbered through ParentAux, count following
      the largest number handed out. */
  method ComponentMapRecursive(n: nat, pairs: seq<(nat, nat)>) returns (r: Result<(seq<nat>, nat)>)
    ensures r.Err? <==> !PairsIn(n, pairs)
    ensures r.Err? ==> r.error == IndexOutOfRange
    ensures r.Ok? ==> IsComponentMap(n, pairs, r.value.0, r.value.1)
  {
    if !PairsIn(n, pairs) {
      return Err(IndexOutOfRange);
    }
    var ids, count := WalkRoots(n, pairs);
    return Ok((ids, count));
  }

  /** The recursive numbering of connected_componnent_map_from_edges over
      pairs that all name nodes. */
  method WalkRoots(n: nat, pairs: seq<(nat, nat)>) returns (ids: seq<nat>, count: nat)
    requires PairsIn(n, pairs)
    ensures IsComponentMap(n, pairs, ids, count)
  {
    var fathers := JoinAll(n, pairs);
    ghost var R := Roots(fathers);
    RootsIsRootMap(fathers);
    ghost var first: seq<nat> := seq(n, _ => 0);
    ids := seq(n, _ => 0);
    count := 0;
    assert ids[..0] == [];
    var node: nat := 0;
    while node < n
      invariant node <= n && |ids| == n
      invariant WalkState(R, first, ids, count, node)
    {
      ids, count, first := Visit(fathers, R, first, ids, count, node);
      node := node + 1;
    }
    WalkComplete(n, pairs, fathers, first, ids, count);
  }

  /** A recursive numbering that has passed every node numbers the
      components. */
  lemma WalkComplete(n: nat, pairs: seq<(nat, nat)>, f: seq<int>, first: seq<nat>, ids: seq<nat>, count: nat)
    requires IsForest(f) && |f| == n && IsRootMap(Roots(f)) && |ids| == n
    requires forall a, b :: 0 <= a < n && 0 <= b < n ==> (Same(f, a, b) <==> Connected(pairs, a, b))
    requires WalkState(Roots(f), first, ids, count, n)
    ensures IsComponentMap(n, pairs, ids, count)
  {
    var R := Roots(f);
    WalkDone(R, first, ids, count);
    RootsConnected(n, pairs, f);
    NumbersFollowRoots(n, pairs, R, ids, count);
  }
}
