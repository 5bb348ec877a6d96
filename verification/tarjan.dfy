// Tarjan's strongly connected components (graph/strong_connectivity.py:54-102).
//
// One depth-first search numbers nodes in the order it discovers them
// (prefix_index) and keeps the discovered nodes whose component is not yet
// known on a stack. A call returns the smallest index among the nodes its
// search reaches directly; when that is the index of the node itself, the
// node is the root of a component, and the component is everything stacked
// above it. Popped nodes get prefix index G.order, which is never smaller
// than an index a live search compares against.
//
// The model proves that the result is the same partition into strongly
// connected components that Kosaraju's method computes (Strong.Partition).
// The stack, the counter and the component numbers are threaded through a
// State value instead of being shared mutable objects.
module Tarjan {
  import opened Graphs
  import opened Strong
  import opened TarjanState


  lemma ExtendsRefl(g: Graph, t: State)
    requires Sized(g, t)
    ensures Extends(g, t, t)
  {
    assert t.stack[..|t.stack|] == t.stack;
  }

  lemma ExtendsTrans(g: Graph, s: State, t: State, u: State)
    requires Sized(g, s) && Sized(g, t) && Sized(g, u) && Extends(g, s, t) && Extends(g, t, u)
    ensures Extends(g, s, u)
  {
    assert u.stack[..|s.stack|] == u.stack[..|t.stack|][..|s.stack|];
    forall i | 0 <= i < |s.stack| && s.stack[i] < g.order
      ensures u.index[s.stack[i]] == s.index[s.stack[i]]
    {
      assert t.stack[i] == s.stack[i];
    }
  }

  /** Nodes stacked lower were discovered earlier. */
  lemma EarlierIndex(g: Graph, s: State, i: nat, j: nat)
    requires Sized(g, s) && Stacked(g, s) && i < j < |s.stack|
    ensures s.index[s.stack[i]] < s.index[s.stack[j]]
  {
    assert Earlier(s, i, j);
  }

  lemma StackDistinct(g: Graph, s: State)
    requires Sized(g, s) && Stacked(g, s)
    ensures Distinct(s.stack)
  {
    forall i, j | 0 <= i < j < |s.stack| ensures s.stack[i] != s.stack[j] {
      assert Earlier(s, i, j);
    }
  }

  // ---------------------------------------------------------------------
  // Entering a call (:62-65).

  /** Discovering x keeps the invariant, with x open. */
  lemma Push(g: Graph, s: State, A: seq<nat>, heads: seq<nat>, x: nat)
    requires Valid(g) && x < g.order && Inv(g, s, A, heads) && s.index[x] == 0 && Stack(g, A, x)
    ensures Inv(g, Enter(s, x), A + [x], heads) && Extends(g, s, Enter(s, x))
    ensures Enter(s, x).index[x] == s.counter + 1 <= g.order
  {
    var t := Enter(s, x);
    PushSized(g, s, x);
    assert x !in s.stack;
    PushStacked(g, s, x);
    PushChained(g, s, A, x);
    PushRooted(g, s, A, x);
    PushExplored(g, s, A, x);
  }

  lemma PushSized(g: Graph, s: State, x: nat)
    requires x < g.order && Sized(g, s) && s.index[x] == 0
    ensures Sized(g, Enter(s, x))
  {
    assert Assigned(Enter(s, x).index) == Assigned(s.index)[x := true];
    UnmarkedMark(Assigned(s.index), x);
  }

  lemma PushStacked(g: Graph, s: State, x: nat)
    requires x < g.order && Sized(g, s) && Sized(g, Enter(s, x)) && Stacked(g, s) && Marked(g, s)
    requires s.index[x] == 0
    ensures Stacked(g, Enter(s, x))
  {
    var t := Enter(s, x);
    forall i | 0 <= i < |t.stack|
      ensures t.stack[i] < g.order && t.comp[t.stack[i]] == 0 && 1 <= t.index[t.stack[i]] <= t.counter
    {
      if i < |s.stack| { assert t.stack[i] == s.stack[i]; }
    }
    forall i, j | 0 <= i < j < |t.stack| ensures Earlier(t, i, j) {
      assert t.stack[i] == s.stack[i];
      if j < |s.stack| { assert t.stack[j] == s.stack[j] && Earlier(s, i, j); }
    }
  }

  lemma PushChained(g: Graph, s: State, A: seq<nat>, x: nat)
    requires x < g.order && Sized(g, s) && Stacked(g, s) && Chained(g, s) && Rooted(g, s, A) && Stack(g, A, x)
    ensures Chained(g, Enter(s, x))
  {
    var t := Enter(s, x);
    forall i, j | 0 <= i < j < |t.stack| ensures Reach(g, t.stack[i], t.stack[j]) {
      assert t.stack[i] == s.stack[i];
      if j < |s.stack| {
        assert t.stack[j] == s.stack[j];
      } else {
        assert Anchored(g, s, A, s.stack[i]);
        var a: nat :| a in A && a < g.order && s.index[a] <= s.index[s.stack[i]] && Reach(g, s.stack[i], a);
        StackReach(g, A, x, a);
        ReachTrans(g, s.stack[i], a, x);
      }
    }
  }

  lemma PushRooted(g: Graph, s: State, A: seq<nat>, x: nat)
    requires x < g.order && Sized(g, s) && Stacked(g, s) && Rooted(g, s, A) && Open(s, A) && s.index[x] == 0
    requires Sized(g, Enter(s, x)) && Stacked(g, Enter(s, x))
    ensures Rooted(g, Enter(s, x), A + [x])
  {
    var t := Enter(s, x);
    forall i | 0 <= i < |t.stack| ensures Anchored(g, t, A + [x], t.stack[i]) {
      if i < |s.stack| {
        assert t.stack[i] == s.stack[i];
        assert Anchored(g, s, A, s.stack[i]);
        var a: nat :| a in A && a < g.order && s.index[a] <= s.index[s.stack[i]] && Reach(g, s.stack[i], a);
        assert a in A + [x];
        var k := IndexIn(s.stack, a);
      } else {
        ReachRefl(g, x);
        assert x in A + [x];
      }
    }
  }

  lemma PushExplored(g: Graph, s: State, A: seq<nat>, x: nat)
    requires x < g.order && Sized(g, s) && Explored(g, s, A) && Sized(g, Enter(s, x))
    ensures Explored(g, Enter(s, x), A + [x])
  {
    var t := Enter(s, x);
    forall w: nat, y: nat | w in t.stack && w !in A + [x] && Edge(g, w, y) ensures y < g.order && t.index[y] != 0 {
      assert w in s.stack;
    }
  }

  // ---------------------------------------------------------------------
  // Popping a component (:79-84).

  /** The loop that pops the stack down to x and numbers what it pops. */
  method PopComponent(g: Graph, x: nat, t: State, ghost p: nat) returns (u: State)
    requires |t.index| == g.order && |t.comp| == g.order
    requires Distinct(t.stack) && forall i :: 0 <= i < |t.stack| ==> t.stack[i] < g.order
    requires p < |t.stack| && t.stack[p] == x
    ensures Popped(g, t, p, u)
  {
    u := t.(count := t.count + 1);
    var neigh: int := -1;
    while neigh != x
      invariant p <= |u.stack| <= |t.stack| && u.stack == t.stack[..|u.stack|]
      invariant neigh == x <==> |u.stack| == p
      invariant u.counter == t.counter && u.count == t.count + 1
      invariant |u.index| == g.order && |u.comp| == g.order
      invariant forall v :: 0 <= v < g.order ==>
        if v in t.stack[|u.stack|..] then u.comp[v] == u.count && u.index[v] == g.order
        else u.comp[v] == t.comp[v] && u.index[v] == t.index[v]
      decreases |u.stack|
    {
      var n := |u.stack| - 1;
      neigh := u.stack[n];
      assert neigh == t.stack[n];
      assert t.stack[n..] == [neigh] + t.stack[n + 1..];
      u := u.(stack := u.stack[..n], comp := u.comp[neigh := u.count], index := u.index[neigh := g.order]);
    }
  }

  // ---------------------------------------------------------------------
  // The root test (:78). When no edge out of the nodes stacked from x on
  // leads below x's index, those nodes are exactly x's component.

  /** A node lies in s[..p] or in s[p..], and not in both when s is distinct. */
  lemma Halves(s: seq<nat>, p: nat, v: nat)
    requires Distinct(s) && p <= |s|
    ensures v in s <==> v in s[..p] || v in s[p..]
    ensures v in s[..p] ==> v !in s[p..]
  {
    assert s == s[..p] + s[p..];
  }

  /** An edge out of the region ends in the region or at a node with a
      component. */
  lemma RegionEdge(g: Graph, t: State, p: nat, x: nat, w: nat, y: nat)
    requires Sized(g, t) && Stacked(g, t) && Marked(g, t) && Top(g, t, p, x)
    requires w in t.stack[p..] && Edge(g, w, y)
    ensures y < g.order && (y in t.stack[p..] || t.comp[y] != 0)
  {
    assert Low(g, t, p, t.index[x]);
    var j := IndexIn(t.stack[p..], w);
    assert t.stack[p + j] == w;
    if t.comp[y] == 0 {
      var q := IndexIn(t.stack, y);
      if q >= p { assert t.stack[p..][q - p] == y; } else { EarlierIndex(g, t, q, p); }
    }
  }

  /** What the region or a node with a component reaches is in the region
      or has a component. */
  lemma RegionReach(g: Graph, t: State, p: nat, x: nat, w: nat, v: nat)
    requires Sized(g, t) && Stacked(g, t) && Marked(g, t) && Sealed(g, t) && Top(g, t, p, x)
    requires w < g.order && (w in t.stack[p..] || t.comp[w] != 0) && Reach(g, w, v)
    ensures v < g.order && (v in t.stack[p..] || t.comp[v] != 0)
  {
    var q :| IsWalk(g, q) && q[0] == w && q[|q| - 1] == v;
    var i := 0;
    while i < |q| - 1
      invariant i < |q| && q[i] < g.order && (q[i] in t.stack[p..] || t.comp[q[i]] != 0)
    {
      assert Hop(g, q, i);
      if q[i] in t.stack[p..] {
        RegionEdge(g, t, p, x, q[i], q[i + 1]);
      }
      i := i + 1;
    }
  }

  /** Nodes with a component reach only nodes with a component. */
  lemma SealedReach(g: Graph, t: State, c: nat, v: nat)
    requires Sized(g, t) && Sealed(g, t) && c < g.order && t.comp[c] != 0 && Reach(g, c, v)
    ensures v < g.order && t.comp[v] != 0
  {
    var q :| IsWalk(g, q) && q[0] == c && q[|q| - 1] == v;
    var i := 0;
    while i < |q| - 1
      invariant i < |q| && q[i] < g.order && t.comp[q[i]] != 0
    {
      assert Hop(g, q, i);
      i := i + 1;
    }
  }

  /** x's component lies in the region. */
  lemma SccInRegion(g: Graph, t: State, p: nat, x: nat, v: nat)
    requires Sized(g, t) && Stacked(g, t) && Marked(g, t) && Sealed(g, t) && Top(g, t, p, x)
    requires v < g.order && Scc(g, v, x)
    ensures v in t.stack[p..]
  {
    assert x in t.stack[p..] by { assert t.stack[p..][0] == x; }
    RegionReach(g, t, p, x, x, v);
    if t.comp[v] != 0 {
      SealedReach(g, t, v, x);
    }
  }

  /** No node of the region reaches a node stacked below it. */
  lemma RegionEscapes(g: Graph, t: State, p: nat, x: nat, v: nat, a: nat)
    requires Sized(g, t) && Stacked(g, t) && Marked(g, t) && Sealed(g, t) && Distinct(t.stack) && Top(g, t, p, x)
    requires v in t.stack[p..] && a in t.stack[..p]
    ensures !Reach(g, v, a)
  {
    if Reach(g, v, a) {
      Halves(t.stack, p, a);
      var q := IndexIn(t.stack[..p], a);
      assert t.stack[q] == a;
      var j := IndexIn(t.stack[p..], v);
      assert t.stack[p + j] == v;
      RegionReach(g, t, p, x, v, a);
    }
  }

  /** The region lies in x's component: its nodes are reached from x, and
      each reaches an open node, which can only be x. */
  lemma RegionInScc(g: Graph, t: State, A: seq<nat>, p: nat, x: nat, v: nat)
    requires Sized(g, t) && Stacked(g, t) && Marked(g, t) && Chained(g, t) && Sealed(g, t)
    requires Rooted(g, t, A + [x]) && Distinct(t.stack) && Top(g, t, p, x)
    requires (forall a {:trigger a in t.stack[..p]} :: a in A ==> a in t.stack[..p]) && v in t.stack[p..]
    ensures Scc(g, v, x)
  {
    var j := IndexIn(t.stack[p..], v);
    assert t.stack[p + j] == v;
    if j > 0 { assert Reach(g, t.stack[p], t.stack[p + j]); } else { ReachRefl(g, x); }
    assert Anchored(g, t, A + [x], t.stack[p + j]);
    var a: nat :| a in A + [x] && a < g.order && t.index[a] <= t.index[v] && Reach(g, v, a);
    if a != x {
      RegionEscapes(g, t, p, x, v, a);
    }
  }

  /** The region is x's strongly connected component. */
  lemma RegionScc(g: Graph, t: State, A: seq<nat>, heads: seq<nat>, p: nat, x: nat, v: nat)
    requires Inv(g, t, A + [x], heads) && Top(g, t, p, x) && v < g.order
    requires forall a {:trigger a in t.stack[..p]} :: a in A ==> a in t.stack[..p]
    ensures v in t.stack[p..] <==> Scc(g, v, x)
  {
    StackDistinct(g, t);
    if v in t.stack[p..] { RegionInScc(g, t, A, p, x, v); }
    if Scc(g, v, x) { SccInRegion(g, t, p, x, v); }
  }

  /** Popping the region claims exactly x's component. */
  lemma RootClaim(g: Graph, t: State, A: seq<nat>, heads: seq<nat>, p: nat, x: nat, u: State)
    requires Inv(g, t, A + [x], heads) && Top(g, t, p, x)
    requires forall a {:trigger a in t.stack[..p]} :: a in A ==> a in t.stack[..p]
    requires Popped(g, t, p, u)
    ensures Keeps(t.comp, u.comp, |heads| + 1)
    ensures forall v :: 0 <= v < g.order ==> (Claimed(t.comp, u.comp, |heads| + 1, v) <==> Scc(g, v, x))
  {
    forall v | 0 <= v < g.order
      ensures (t.comp[v] != 0 ==> u.comp[v] == t.comp[v]) && (t.comp[v] == 0 ==> u.comp[v] == 0 || u.comp[v] == |heads| + 1)
      ensures Claimed(t.comp, u.comp, |heads| + 1, v) <==> Scc(g, v, x)
    {
      ClaimOne(g, t, p, u, |heads|, v);
      RegionScc(g, t, A, heads, p, x, v);
    }
  }

  /** The pop claims exactly the region, and changes no other component. */
  lemma ClaimOne(g: Graph, t: State, p: nat, u: State, n: nat, v: nat)
    requires Sized(g, t) && Stacked(g, t) && p < |t.stack| && Popped(g, t, p, u) && t.count == n && v < g.order
    ensures (t.comp[v] != 0 ==> u.comp[v] == t.comp[v]) && (t.comp[v] == 0 ==> u.comp[v] == 0 || u.comp[v] == n + 1)
    ensures Claimed(t.comp, u.comp, n + 1, v) <==> v in t.stack[p..]
  {
    if v in t.stack[p..] {
      var j := IndexIn(t.stack[p..], v);
      assert t.stack[p + j] == v;
    }
  }

  // The state after the pop keeps the invariant, one piece at a time.
  // Throughout, s is the state x's call started from, so s.stack is the
  // stack below x.

  lemma PopSized(g: Graph, t: State, p: nat, u: State)
    requires Sized(g, t) && Stacked(g, t) && p < |t.stack| && Popped(g, t, p, u)
    ensures Sized(g, u)
  {
    forall v | 0 <= v < g.order ensures Assigned(u.index)[v] == Assigned(t.index)[v] {
      if v in t.stack[p..] {
        var j := IndexIn(t.stack[p..], v);
        assert t.stack[p + j] == v;
      }
    }
    assert Assigned(u.index) == Assigned(t.index);
  }

  /** The nodes left on the stack keep their component and index. */
  lemma PopKept(g: Graph, t: State, p: nat, u: State, i: nat)
    requires Sized(g, t) && Stacked(g, t) && p <= |t.stack| && Popped(g, t, p, u) && i < |u.stack|
    ensures u.stack[i] == t.stack[i] && u.comp[u.stack[i]] == t.comp[t.stack[i]] && u.index[u.stack[i]] == t.index[t.stack[i]]
  {
    StackDistinct(g, t);
    assert u.stack[i] in t.stack[..p];
    Halves(t.stack, p, u.stack[i]);
  }

  lemma PopStacked(g: Graph, t: State, p: nat, u: State)
    requires Sized(g, t) && Stacked(g, t) && p <= |t.stack| && Popped(g, t, p, u) && Sized(g, u)
    ensures Stacked(g, u)
  {
    forall i | 0 <= i < |u.stack|
      ensures u.stack[i] == t.stack[i] && u.comp[u.stack[i]] == t.comp[t.stack[i]] && u.index[u.stack[i]] == t.index[t.stack[i]]
    {
      PopKept(g, t, p, u, i);
    }
    forall i, j | 0 <= i < j < |u.stack| ensures Earlier(u, i, j) {
      PopKept(g, t, p, u, i);
      PopKept(g, t, p, u, j);
      assert Earlier(t, i, j);
    }
  }

  lemma PopMarked(g: Graph, t: State, p: nat, u: State)
    requires Sized(g, t) && Stacked(g, t) && Marked(g, t) && p <= |t.stack| && Popped(g, t, p, u) && Sized(g, u)
    ensures Marked(g, u)
  {
    StackDistinct(g, t);
    forall v | 0 <= v < g.order
      ensures (u.comp[v] != 0 ==> u.index[v] == g.order) && (u.index[v] != 0 ==> u.comp[v] != 0 || v in u.stack)
    {
      Halves(t.stack, p, v);
    }
  }

  lemma PopChained(g: Graph, t: State, p: nat, u: State)
    requires |t.index| == g.order && |t.comp| == g.order && Chained(g, t) && p <= |t.stack| && Popped(g, t, p, u)
    ensures Chained(g, u)
  {
    forall i, j | 0 <= i < j < |u.stack| ensures Reach(g, u.stack[i], u.stack[j]) {
      assert u.stack[i] == t.stack[i] && u.stack[j] == t.stack[j];
    }
  }

  /** The nodes below x keep the index they had when x's call began. */
  lemma PopSame(g: Graph, s: State, t: State, u: State, v: nat)
    requires Sized(g, s) && Sized(g, t) && Stacked(g, t) && Extends(g, s, t)
    requires Popped(g, t, |s.stack|, u) && v in s.stack
    ensures v < g.order && u.index[v] == s.index[v]
  {
    StackDistinct(g, t);
    var i := IndexIn(s.stack, v);
    assert t.stack[i] == v;
    assert v in t.stack[..|s.stack|];
    Halves(t.stack, |s.stack|, v);
  }

  lemma PopRooted(g: Graph, s: State, t: State, A: seq<nat>, u: State)
    requires Sized(g, s) && Stacked(g, s) && Rooted(g, s, A) && Open(s, A)
    requires Sized(g, t) && Stacked(g, t) && Extends(g, s, t)
    requires Popped(g, t, |s.stack|, u) && Sized(g, u) && Stacked(g, u)
    ensures Rooted(g, u, A) && Open(u, A)
  {
    forall i | 0 <= i < |u.stack| ensures Anchored(g, u, A, u.stack[i]) {
      assert u.stack[i] == s.stack[i];
      assert Anchored(g, s, A, s.stack[i]);
      var a: nat :| a in A && a < g.order && s.index[a] <= s.index[s.stack[i]] && Reach(g, s.stack[i], a);
      PopSame(g, s, t, u, a);
      PopSame(g, s, t, u, s.stack[i]);
    }
  }

  lemma PopSealed(g: Graph, t: State, p: nat, x: nat, u: State)
    requires Sized(g, t) && Stacked(g, t) && Marked(g, t) && Sealed(g, t) && Top(g, t, p, x)
    requires Popped(g, t, p, u) && Sized(g, u)
    ensures Sealed(g, u)
  {
    forall c: nat, y: nat | c < g.order && u.comp[c] != 0 && Edge(g, c, y) ensures y < g.order && u.comp[y] != 0 {
      if c in t.stack[p..] {
        RegionEdge(g, t, p, x, c, y);
      }
    }
  }

  lemma PopExplored(g: Graph, t: State, A: seq<nat>, p: nat, x: nat, u: State)
    requires Sized(g, t) && Stacked(g, t) && Explored(g, t, A + [x])
    requires p < |t.stack| && t.stack[p] == x && Popped(g, t, p, u) && Sized(g, u)
    ensures Explored(g, u, A)
  {
    StackDistinct(g, t);
    forall w: nat, y: nat | w in u.stack && w !in A && Edge(g, w, y) ensures y < g.order && u.index[y] != 0 {
      var i := IndexIn(u.stack, w);
      assert t.stack[i] == w;
      assert w !in A + [x];
      if y < g.order && y in t.stack[p..] {
        var j := IndexIn(t.stack[p..], y);
        assert t.stack[p + j] == y;
      }
    }
  }

  lemma PopExtends(g: Graph, s: State, t: State, u: State)
    requires Sized(g, s) && Sized(g, t) && Stacked(g, t) && Extends(g, s, t)
    requires |s.stack| <= |t.stack| && Popped(g, t, |s.stack|, u) && Sized(g, u)
    ensures Extends(g, s, u)
  {
    var p := |s.stack|;
    StackDistinct(g, t);
    forall v | 0 <= v < g.order && v in t.stack[p..]
      ensures t.comp[v] == 0 && t.index[v] <= g.order
    {
      var j := IndexIn(t.stack[p..], v);
      assert t.stack[p + j] == v;
    }
    forall i | 0 <= i < |s.stack| && s.stack[i] < g.order ensures u.index[s.stack[i]] == s.index[s.stack[i]] {
      assert t.stack[i] == s.stack[i];
      assert s.stack[i] in t.stack[..p];
      Halves(t.stack, p, s.stack[i]);
    }
  }

  /** x is a root: after the pop, the invariant holds again with x's
      component numbered |heads| + 1. */
  lemma Root(g: Graph, s: State, t: State, A: seq<nat>, heads: seq<nat>, x: nat, u: State)
    requires Valid(g) && Sized(g, s) && Stacked(g, s) && Rooted(g, s, A) && Open(s, A)
    requires Inv(g, t, A + [x], heads) && Extends(g, s, t) && Top(g, t, |s.stack|, x)
    requires Popped(g, t, |s.stack|, u)
    ensures Inv(g, u, A, heads + [x]) && Extends(g, s, u)
  {
    var p := |s.stack|;
    forall a | a in A ensures a in t.stack[..p] {
      assert a in s.stack;
    }
    RootClaim(g, t, A, heads, p, x, u);
    Renumber(g, t.comp, heads, x, u.comp);
    PopSized(g, t, p, u);
    PopStacked(g, t, p, u);
    PopMarked(g, t, p, u);
    PopChained(g, t, p, u);
    PopRooted(g, s, t, A, u);
    PopSealed(g, t, p, x, u);
    PopExplored(g, t, A, p, x, u);
    PopExtends(g, s, t, u);
  }

  /** x is not a root: the node low, reached from x and indexed below x, is
      stacked under x and anchors whatever x anchored. */
  lemma Unroot(g: Graph, s: State, t: State, A: seq<nat>, heads: seq<nat>, x: nat, ret: nat, low: nat)
    requires Inv(g, t, A + [x], heads) && Sized(g, s) && Extends(g, s, t)
    requires |s.stack| < |t.stack| && t.stack[|s.stack|] == x && Low(g, t, |s.stack|, ret)
    requires low in t.stack && t.index[low] == ret < t.index[x] && Reach(g, x, low)
    ensures Inv(g, t, A, heads) && low in s.stack
  {
    var b := Below(g, s, t, A, x, ret, low);
    forall i | 0 <= i < |t.stack| ensures Anchored(g, t, A, t.stack[i]) {
      Reanchor(g, t, A, x, low, b, i);
    }
    UnrootExplored(g, t, A, |s.stack|, x, ret);
  }

  /** low is stacked below x, and anchored by an open node other than x. */
  lemma Below(g: Graph, s: State, t: State, A: seq<nat>, x: nat, ret: nat, low: nat) returns (b: nat)
    requires Sized(g, t) && Stacked(g, t) && Rooted(g, t, A + [x]) && Sized(g, s) && Extends(g, s, t)
    requires |s.stack| < |t.stack| && t.stack[|s.stack|] == x
    requires low in t.stack && t.index[low] == ret < t.index[x]
    ensures low in s.stack && b in A && b < g.order && t.index[b] <= ret && Reach(g, low, b)
  {
    var q := IndexIn(t.stack, low);
    if q < |s.stack| { assert s.stack[q] == low; }
    if q > |s.stack| { EarlierIndex(g, t, |s.stack|, q); }
    assert Anchored(g, t, A + [x], t.stack[q]);
    b :| b in A + [x] && b < g.order && t.index[b] <= ret && Reach(g, low, b);
  }

  /** A stacked node anchored at x is anchored at b, through x and low. */
  lemma Reanchor(g: Graph, t: State, A: seq<nat>, x: nat, low: nat, b: nat, i: nat)
    requires Sized(g, t) && Stacked(g, t) && Rooted(g, t, A + [x]) && i < |t.stack| && x < g.order
    requires Reach(g, x, low) && b in A && b < g.order && t.index[b] < t.index[x] && Reach(g, low, b)
    ensures Anchored(g, t, A, t.stack[i])
  {
    var w := t.stack[i];
    assert Anchored(g, t, A + [x], w);
    var a: nat :| a in A + [x] && a < g.order && t.index[a] <= t.index[w] && Reach(g, w, a);
    if a == x {
      ReachTrans(g, w, x, low);
      ReachTrans(g, w, low, b);
    }
  }

  lemma UnrootExplored(g: Graph, t: State, A: seq<nat>, p: nat, x: nat, ret: nat)
    requires Sized(g, t) && Explored(g, t, A + [x]) && p < |t.stack| && t.stack[p] == x && Low(g, t, p, ret)
    ensures Explored(g, t, A)
  {
    forall w: nat, y: nat | w in t.stack && w !in A && Edge(g, w, y) ensures y < g.order && t.index[y] != 0 {
      if w == x {
        assert Edge(g, t.stack[p], y);
      } else {
        assert w !in A + [x];
      }
    }
  }

  // ---------------------------------------------------------------------
  // The calls.

  /** One step of the loop over x's successors (:68-73), when the successor
      y = G.adjlists[x][i] was new and its call returned (ret_y, t'): the
      bounds hold for the smaller of ret and ret_y. */
  lemma ChildStep(g: Graph, t: State, t': State, x: nat, i: nat, p: nat, ret: nat, ret_y: nat)
    requires Valid(g) && x < g.order && i < |g.adj[x]| && Sized(g, t) && Sized(g, t') && Extends(g, t, t')
    requires p <= |t.stack| && Low(g, t, p, ret) && Scanned(g, t, x, i, ret)
    requires t'.stack == t.stack || Low(g, t', |t.stack|, ret_y)
    requires t'.index[g.adj[x][i]] != 0 && ret_y <= t'.index[g.adj[x][i]]
    ensures Low(g, t', p, if ret_y < ret then ret_y else ret)
    ensures Scanned(g, t', x, i + 1, if ret_y < ret then ret_y else ret)
  {
    var m := if ret_y < ret then ret_y else ret;
    forall j: nat, y: nat | p <= j < |t'.stack| && Edge(g, t'.stack[j], y)
      ensures y < g.order && t'.index[y] != 0 && m <= t'.index[y]
    {
      if j < |t.stack| {
        assert t'.stack[j] == t.stack[j];
        assert Edge(g, t.stack[j], y);
      } else {
        assert Low(g, t', |t.stack|, ret_y);
      }
    }
    forall k | 0 <= k < i + 1 ensures t'.index[g.adj[x][k]] != 0 && m <= t'.index[g.adj[x][k]] {
      if k < i { assert t.index[g.adj[x][k]] != 0; }
    }
  }

  /** The same step when y was already discovered (:74-75): a node whose
      index is below ret is still stacked. */
  lemma SeenStep(g: Graph, t: State, x: nat, i: nat, ret: nat)
    requires Valid(g) && x < g.order && i < |g.adj[x]| && Sized(g, t) && Marked(g, t)
    requires Scanned(g, t, x, i, ret) && ret <= g.order
    requires t.index[g.adj[x][i]] != 0
    ensures Scanned(g, t, x, i + 1, if t.index[g.adj[x][i]] < ret then t.index[g.adj[x][i]] else ret)
    ensures t.index[g.adj[x][i]] < ret ==> g.adj[x][i] in t.stack
  {
    var y := g.adj[x][i];
    if t.index[y] < ret {
      assert t.comp[y] == 0;
    }
  }

  /** Once all of x's successors are processed, the edges out of x obey the
      same bound. */
  lemma LowAll(g: Graph, t: State, p: nat, x: nat, ret: nat)
    requires Valid(g) && Sized(g, t) && p < |t.stack| && t.stack[p] == x && x < g.order && Low(g, t, p + 1, ret)
    requires Scanned(g, t, x, |g.adj[x]|, ret)
    ensures Low(g, t, p, ret)
  {
    forall j: nat, y: nat | p <= j < |t.stack| && Edge(g, t.stack[j], y)
      ensures y < g.order && t.index[y] != 0 && ret <= t.index[y]
    {
      if j == p {
        var k :| 0 <= k < |g.adj[x]| && g.adj[x][k] == y;
      }
    }
  }

  /** A stacked node stays stacked with its index. */
  lemma Kept(g: Graph, t: State, t': State, v: nat)
    requires Sized(g, t) && Sized(g, t') && Stacked(g, t) && Extends(g, t, t') && v in t.stack
    ensures v in t'.stack && t'.index[v] == t.index[v]
  {
    var i := IndexIn(t.stack, v);
    assert t'.stack[i] == v;
  }

  /** The loop starts right after x is pushed. */
  lemma ScanStart(g: Graph, s: State, A: seq<nat>, heads: seq<nat>, x: nat, t: State)
    requires Valid(g) && x < g.order && Inv(g, s, A, heads) && s.index[x] == 0 && Stack(g, A, x)
    requires t == Enter(s, x)
    ensures Scanning(g, t, t, A, x, |s.stack|, heads, s.counter + 1, x, 0)
    ensures Extends(g, s, t)
  {
    Push(g, s, A, heads, x);
    ExtendsRefl(g, t);
    ReachRefl(g, x);
    assert t.stack[|s.stack|] == x;
    assert Low(g, t, |t.stack|, s.counter + 1);
  }

  /** The successor y was new and its call returned (ret_y, t1): the loop
      invariant holds for the next successor. */
  lemma ChildDone(g: Graph, s0: State, t: State, A: seq<nat>, x: nat, p: nat, heads: seq<nat>,
                  ret: nat, low: nat, i: nat, t1: State, heads1: seq<nat>, ret_y: nat, low_y: nat)
    returns (low': nat)
    requires Scanning(g, s0, t, A, x, p, heads, ret, low, i) && i < |g.adj[x]|
    requires Inv(g, t1, A + [x], heads1) && Extends(g, t, t1) && t1.index[g.adj[x][i]] != 0
    requires 1 <= ret_y <= t.counter + 1 && ret_y <= t1.index[g.adj[x][i]]
    requires ret_y == t.counter + 1 ==> t1.stack == t.stack
    requires ret_y < t.counter + 1 ==>
      && |t.stack| < |t1.stack| && Low(g, t1, |t.stack|, ret_y)
      && low_y in t.stack && low_y < g.order && t1.index[low_y] == ret_y && Reach(g, g.adj[x][i], low_y)
    ensures Scanning(g, s0, t1, A, x, p, heads1, if ret_y < ret then ret_y else ret, low', i + 1)
  {
    var y := g.adj[x][i];
    assert Edge(g, x, y);
    ExtendsTrans(g, s0, t, t1);
    ChildStep(g, t, t1, x, i, p + 1, ret, ret_y);
    Kept(g, t, t1, low);
    Kept(g, t, t1, x);
    low' := low;
    if ret_y < ret {
      Kept(g, t, t1, low_y);
      StepReach(g, x, y, low_y);
      low' := low_y;
    }
  }

  /** The successor y was already discovered: the loop invariant holds for
      the next successor. */
  lemma SeenDone(g: Graph, s0: State, t: State, A: seq<nat>, x: nat, p: nat, heads: seq<nat>,
                 ret: nat, low: nat, i: nat)
    returns (low': nat)
    requires Scanning(g, s0, t, A, x, p, heads, ret, low, i) && i < |g.adj[x]| && t.index[g.adj[x][i]] != 0
    ensures Scanning(g, s0, t, A, x, p, heads, if t.index[g.adj[x][i]] < ret then t.index[g.adj[x][i]] else ret, low', i + 1)
  {
    var y := g.adj[x][i];
    assert Edge(g, x, y);
    SeenStep(g, t, x, i, ret);
    low' := low;
    if t.index[y] < ret {
      ReachEdge(g, x, y);
      low' := y;
    }
  }

  /** One pass of the loop over x's successors (:68-75): a new successor
      gets its own call, and ret becomes the smaller of ret and the value
      the call returns, or the successor's index when it was already
      discovered. */
  method Step(g: Graph, x: nat, i: nat, t: State, ret: nat, ghost s0: State, ghost A: seq<nat>, ghost p: nat,
              ghost heads: seq<nat>, ghost low: nat)
    returns (t1: State, ret1: nat, ghost heads1: seq<nat>, ghost low1: nat)
    requires Scanning(g, s0, t, A, x, p, heads, ret, low, i) && i < |g.adj[x]|
    ensures Scanning(g, s0, t1, A, x, p, heads1, ret1, low1, i + 1)
    ensures ret1 <= ret
    decreases g.order - t.counter, 1
  {
    var y := g.adj[x][i];
    if t.index[y] == 0 {
      assert Edge(g, x, y);
      StackPush(g, A, x, y);
      var ret_y;
      ghost var low_y;
      ret_y, t1, heads1, low_y := Visit(g, y, t, A + [x], heads);
      low1 := ChildDone(g, s0, t, A, x, p, heads, ret, low, i, t1, heads1, ret_y, low_y);
      ret1 := if ret_y < ret then ret_y else ret;
    } else {
      low1 := SeenDone(g, s0, t, A, x, p, heads, ret, low, i);
      t1, heads1 := t, heads;
      ret1 := if t.index[y] < ret then t.index[y] else ret;
    }
  }

  /** __tarjan_aux (graph/strong_connectivity.py:59-87). The call on x
      returns the smallest prefix index its search met, which is x's own
      index exactly when x is the root of a component; then that component
      has been popped and numbered. Otherwise x stays stacked, and the
      returned index belongs to a node low, stacked below x and reached
      from x. */
  method Visit(g: Graph, x: nat, s: State, ghost A: seq<nat>, ghost heads: seq<nat>)
    returns (ret: nat, t: State, ghost heads': seq<nat>, ghost low: nat)
    requires Valid(g) && x < g.order && Inv(g, s, A, heads) && s.index[x] == 0 && Stack(g, A, x)
    ensures Inv(g, t, A, heads') && Extends(g, s, t) && t.index[x] != 0
    ensures 1 <= ret <= s.counter + 1 && ret <= t.index[x]
    ensures ret == s.counter + 1 ==> t.stack == s.stack && t.comp[x] != 0
    ensures ret < s.counter + 1 ==>
      && |s.stack| < |t.stack| && t.stack[|s.stack|] == x && Low(g, t, |s.stack|, ret)
      && low in s.stack && low < g.order && t.index[low] == ret && Reach(g, x, low)
    decreases g.order - s.counter, 0
  {
    ghost var p := |s.stack|;
    t := State(s.index[x := s.counter + 1], s.counter + 1, s.comp, s.count, s.stack + [x]);
    ScanStart(g, s, A, heads, x, t);
    ghost var s0 := t;
    ret := t.counter;
    heads' := heads;
    low := x;
    var i := 0;
    while i < |g.adj[x]|
      invariant Scanning(g, s0, t, A, x, p, heads', ret, low, i)
    {
      t, ret, heads', low := Step(g, x, i, t, ret, s0, A, p, heads', low);
      i := i + 1;
    }
    t, heads' := Close(g, x, s, A, heads, t, ret, s0, heads', low);
  }

  /** The root test and the pop (:77-84), once all successors of x are
      processed. */
  method Close(g: Graph, x: nat, s: State, ghost A: seq<nat>, ghost heads: seq<nat>, t: State, ret: nat,
               ghost s0: State, ghost heads1: seq<nat>, ghost low: nat)
    returns (t': State, ghost heads': seq<nat>)
    requires Valid(g) && x < g.order && Inv(g, s, A, heads) && s.index[x] == 0 && s0 == Enter(s, x)
    requires Scanning(g, s0, t, A, x, |s.stack|, heads1, ret, low, |g.adj[x]|) && Extends(g, s, s0)
    ensures Inv(g, t', A, heads') && Extends(g, s, t') && t'.index[x] != 0
    ensures 1 <= ret <= s.counter + 1 && ret <= t'.index[x]
    ensures ret == s.counter + 1 ==> t'.stack == s.stack && t'.comp[x] != 0
    ensures ret < s.counter + 1 ==>
      && |s.stack| < |t'.stack| && t'.stack[|s.stack|] == x && Low(g, t', |s.stack|, ret)
      && low in s.stack && t'.index[low] == ret && Reach(g, x, low)
  {
    ReadyToPop(g, s, s0, t, A, x, heads1, ret, low);
    if ret == t.index[x] {
      t' := PopComponent(g, x, t, |s.stack|);
      CloseRoot(g, x, s, A, heads, t, ret, s0, heads1, low, t');
      heads' := heads1 + [x];
    } else {
      CloseUnroot(g, x, s, A, heads, t, ret, s0, heads1, low);
      t', heads' := t, heads1;
    }
  }

  /** What the pop needs: x sits at position |s.stack| of a stack of
      distinct nodes. */
  lemma ReadyToPop(g: Graph, s: State, s0: State, t: State, A: seq<nat>, x: nat, heads1: seq<nat>, ret: nat, low: nat)
    requires Valid(g) && x < g.order && Sized(g, s) && s0 == Enter(s, x)
    requires Scanning(g, s0, t, A, x, |s.stack|, heads1, ret, low, |g.adj[x]|)
    ensures |t.index| == g.order && |t.comp| == g.order
    ensures Distinct(t.stack) && forall i :: 0 <= i < |t.stack| ==> t.stack[i] < g.order
    ensures |s.stack| < |t.stack| && t.stack[|s.stack|] == x
  {
    StackDistinct(g, t);
  }

  /** x is a root: after the pop, the call's promises hold. */
  lemma CloseRoot(g: Graph, x: nat, s: State, A: seq<nat>, heads: seq<nat>, t: State, ret: nat,
                  s0: State, heads1: seq<nat>, low: nat, u: State)
    requires Valid(g) && x < g.order && Inv(g, s, A, heads) && s.index[x] == 0 && s0 == Enter(s, x)
    requires Scanning(g, s0, t, A, x, |s.stack|, heads1, ret, low, |g.adj[x]|) && Extends(g, s, s0)
    requires ret == t.index[x] && Popped(g, t, |s.stack|, u)
    ensures Inv(g, u, A, heads1 + [x]) && Extends(g, s, u) && u.index[x] != 0
    ensures ret == s.counter + 1 && ret <= u.index[x]
    ensures u.stack == s.stack && u.comp[x] != 0
  {
    ExitScan(g, s, s0, t, A, x, |s.stack|, heads1, ret, low);
    Root(g, s, t, A, heads1, x, u);
    assert x in t.stack[|s.stack|..] by { assert t.stack[|s.stack|..][0] == x; }
  }

  /** x is not a root: it stays stacked, and the call's promises hold. */
  lemma CloseUnroot(g: Graph, x: nat, s: State, A: seq<nat>, heads: seq<nat>, t: State, ret: nat,
                    s0: State, heads1: seq<nat>, low: nat)
    requires Valid(g) && x < g.order && Inv(g, s, A, heads) && s.index[x] == 0 && s0 == Enter(s, x)
    requires Scanning(g, s0, t, A, x, |s.stack|, heads1, ret, low, |g.adj[x]|) && Extends(g, s, s0)
    requires ret != t.index[x]
    ensures Inv(g, t, A, heads1) && Extends(g, s, t) && t.index[x] != 0
    ensures 1 <= ret < s.counter + 1 && ret <= t.index[x]
    ensures |s.stack| < |t.stack| && t.stack[|s.stack|] == x && Low(g, t, |s.stack|, ret)
    ensures low in s.stack && t.index[low] == ret && Reach(g, x, low)
  {
    ExitScan(g, s, s0, t, A, x, |s.stack|, heads1, ret, low);
    Unroot(g, s, t, A, heads1, x, ret, low);
  }

  /** What the loop leaves for the root test. */
  lemma ExitScan(g: Graph, s: State, s0: State, t: State, A: seq<nat>, x: nat, p: nat, heads: seq<nat>,
                 ret: nat, low: nat)
    requires Valid(g) && x < g.order && Sized(g, s) && p == |s.stack|
    requires Scanning(g, s0, t, A, x, p, heads, ret, low, |g.adj[x]|) && Extends(g, s, s0)
    ensures Extends(g, s, t) && Low(g, t, p, ret) && Distinct(t.stack)
  {
    StackDistinct(g, t);
    ExtendsTrans(g, s, s0, t);
    LowAll(g, t, p, x, ret);
  }

  /** Before the first search (:89-93) nothing is discovered, stacked or
      numbered. */
  lemma Start(g: Graph, s: State)
    requires s == State(seq(g.order, _ => 0), 0, seq(g.order, _ => 0), 0, [])
    ensures Inv(g, s, [], [])
  {
    assert Assigned(s.index) == seq(g.order, _ => false);
    UnmarkedNone(g.order);
  }

  /** Discovered nodes stay discovered. */
  lemma StillSeen(g: Graph, s: State, t: State, n: nat)
    requires Sized(g, s) && Sized(g, t) && Extends(g, s, t) && n < g.order && t.index[n] != 0
    requires forall v :: 0 <= v < n ==> s.index[v] != 0
    ensures forall v :: 0 <= v <= n ==> t.index[v] != 0
  {
  }

  /** No stacked node is left once the chain of calls is empty. */
  lemma Closing(g: Graph, s: State, heads: seq<nat>)
    requires Inv(g, s, [], heads) && forall v :: 0 <= v < g.order ==> s.index[v] != 0
    ensures forall v :: 0 <= v < g.order ==> s.comp[v] != 0
  {
    forall v | 0 <= v < g.order ensures s.comp[v] != 0 {
      if s.comp[v] == 0 {
        var i := IndexIn(s.stack, v);
      }
    }
  }

  /** tarjan (graph/strong_connectivity.py:54-102): the same partition into
      strongly connected components as Kosaraju's method. */
  method Tarjan(g: Graph) returns (comp: seq<nat>, count: nat)
    requires Valid(g)
    ensures Partition(g, comp, count)
  {
    var s := State(seq(g.order, _ => 0), 0, seq(g.order, _ => 0), 0, []);
    ghost var heads: seq<nat> := [];
    Start(g, s);
    var node := 0;
    while node < g.order
      invariant node <= g.order && Inv(g, s, [], heads)
      invariant forall v :: 0 <= v < node ==> s.index[v] != 0
    {
      s, heads := Sweep(g, s, heads, node);
      node := node + 1;
    }
    Finished(g, s, heads);
    comp, count := s.comp, s.count;
  }

  /** One turn of the outer loop (graph/strong_connectivity.py:96-100): a
      node not yet indexed starts a search from an empty stack. */
  method Sweep(g: Graph, s: State, ghost heads: seq<nat>, node: nat) returns (t: State, ghost heads': seq<nat>)
    requires Valid(g) && node < g.order && Inv(g, s, [], heads)
    requires forall v :: 0 <= v < node ==> s.index[v] != 0
    ensures Inv(g, t, [], heads') && forall v :: 0 <= v <= node ==> t.index[v] != 0
  {
    if s.index[node] == 0 {
      var _, t', h, _ := Visit(g, node, s, [], heads);
      StillSeen(g, s, t', node);
      t, heads' := t', h;
    } else {
      t, heads' := s, heads;
    }
  }

  /** Once every node is indexed, the map numbers the components 1..count. */
  lemma Finished(g: Graph, s: State, heads: seq<nat>)
    requires Inv(g, s, [], heads) && forall v :: 0 <= v < g.order ==> s.index[v] != 0
    ensures Partition(g, s.comp, s.count)
  {
    Closing(g, s, heads);
    Settled(g, s.comp, heads);
  }

  // ---------------------------------------------------------------------
  // Agreement with Kosaraju's method

  /** Any two numberings meeting Partition group the nodes alike and count
      the same number of components, so Tarjan and Kosaraju return the same
      partition and count, up to the names of the components. */
  lemma PartitionsAgree(g: Graph, comp1: seq<nat>, count1: nat, comp2: seq<nat>, count2: nat)
    requires Partition(g, comp1, count1) && Partition(g, comp2, count2)
    ensures count1 == count2
    ensures forall u, v :: 0 <= u < g.order && 0 <= v < g.order ==>
      (comp1[u] == comp1[v] <==> comp2[u] == comp2[v])
  {
    CountAtMost(g, comp1, count1, comp2, count2);
    CountAtMost(g, comp2, count2, comp1, count1);
  }

  /** A node numbered c in comp. */
  ghost function Member(comp: seq<nat>, c: nat): (v: nat)
    requires Used(comp, c)
    ensures v < |comp| && comp[v] == c
  {
    var v :| 0 <= v < |comp| && comp[v] == c; v
  }

  /** The numbers comp2 gives to one member of each class of comp1 are
      distinct and below count2, so comp1 has no more classes. */
  lemma CountAtMost(g: Graph, comp1: seq<nat>, count1: nat, comp2: seq<nat>, count2: nat)
    requires Partition(g, comp1, count1) && Partition(g, comp2, count2)
    ensures count1 <= count2
  {
    var reps := seq(count1, k requires 0 <= k < count1 && Used(comp1, k + 1) => Member(comp1, k + 1));
    Pigeon(g, comp1, count1, comp2, count2, reps);
  }

  /** reps[k] is a node of class k + 1 of comp1: their comp2 numbers are
      distinct, so there are at most count2 of them. */
  lemma Pigeon(g: Graph, comp1: seq<nat>, count1: nat, comp2: seq<nat>, count2: nat, reps: seq<nat>)
    requires Partition(g, comp1, count1) && Partition(g, comp2, count2)
    requires |reps| == count1 && forall k :: 0 <= k < count1 ==> reps[k] < g.order && comp1[reps[k]] == k + 1
    ensures count1 <= count2
  {
    var s := seq(count1, k requires 0 <= k < count1 => comp2[reps[k]] - 1);
    forall i, j | 0 <= i < j < |s| ensures s[i] != s[j] {
      assert comp1[reps[i]] != comp1[reps[j]];
    }
    DistinctLength(s, count2);
  }
}
