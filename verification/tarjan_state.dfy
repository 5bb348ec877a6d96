// The state of Tarjan's search (graph/strong_connectivity.py:59-87) and the
// invariant it keeps. The algorithm and its proof are in module Tarjan.
module TarjanState {
  import opened Graphs
  import opened Strong

  /** prefix_index, counter, the component map, the number of components so
      far, and the stack: what __tarjan_aux shares with its callers. */
  datatype State = State(index: seq<nat>, counter: nat, comp: seq<nat>, count: nat, stack: seq<nat>)

  // ---------------------------------------------------------------------
  // The invariant of the search. A is the chain of calls in progress.

  /** The maps cover every node, and counter counts the discovered nodes. */
  ghost predicate Sized(g: Graph, s: State) {
    |s.index| == g.order && |s.comp| == g.order && s.counter + Unmarked(Assigned(s.index)) == g.order
  }

  /** Stacked nodes have no component yet, and were discovered in the order
      they are stacked. */
  ghost predicate Stacked(g: Graph, s: State)
    requires Sized(g, s)
  {
    && (forall i :: 0 <= i < |s.stack| ==>
          s.stack[i] < g.order && s.comp[s.stack[i]] == 0 && 1 <= s.index[s.stack[i]] <= s.counter)
    && (forall i, j {:trigger Earlier(s, i, j)} :: 0 <= i < j < |s.stack| ==> Earlier(s, i, j))
  }

  /** The node stacked at i was discovered before the one stacked at j. */
  ghost predicate Earlier(s: State, i: nat, j: nat)
    requires i < |s.stack| && j < |s.stack|
  {
    s.stack[i] < |s.index| && s.stack[j] < |s.index| && s.index[s.stack[i]] < s.index[s.stack[j]]
  }

  /** A node with a component has prefix index G.order (:84); a discovered
      node has a component or is stacked. */
  ghost predicate Marked(g: Graph, s: State)
    requires Sized(g, s)
  {
    forall v {:trigger s.comp[v]} :: 0 <= v < g.order ==>
      (s.comp[v] != 0 ==> s.index[v] == g.order) && (s.index[v] != 0 ==> s.comp[v] != 0 || v in s.stack)
  }

  /** Each stacked node reaches the nodes stacked above it. */
  ghost predicate Chained(g: Graph, s: State) {
    forall i, j {:trigger Reach(g, s.stack[i], s.stack[j])} :: 0 <= i < j < |s.stack| ==> Reach(g, s.stack[i], s.stack[j])
  }

  /** w reaches an open node discovered no later than w. */
  ghost predicate Anchored(g: Graph, s: State, A: seq<nat>, w: nat)
    requires |s.index| == g.order && w < g.order
  {
    exists a: nat :: a in A && a < g.order && s.index[a] <= s.index[w] && Reach(g, w, a)
  }

  ghost predicate Rooted(g: Graph, s: State, A: seq<nat>)
    requires Sized(g, s) && Stacked(g, s)
  {
    forall i :: 0 <= i < |s.stack| ==> Anchored(g, s, A, s.stack[i])
  }

  /** The open nodes are stacked. */
  ghost predicate Open(s: State, A: seq<nat>) {
    forall a {:trigger a in s.stack} :: a in A ==> a in s.stack
  }

  /** An edge out of a node with a component ends at a node with one. */
  ghost predicate Sealed(g: Graph, s: State)
    requires Sized(g, s)
  {
    forall c: nat, y: nat {:trigger Edge(g, c, y)} :: c < g.order && s.comp[c] != 0 && Edge(g, c, y) ==> y < g.order && s.comp[y] != 0
  }

  /** A stacked node whose call has returned has all its successors
      discovered. */
  ghost predicate Explored(g: Graph, s: State, A: seq<nat>)
    requires Sized(g, s)
  {
    forall w: nat, y: nat {:trigger Edge(g, w, y)} :: w in s.stack && w !in A && Edge(g, w, y) ==> y < g.order && s.index[y] != 0
  }

  /** heads[c] is the root of component c + 1. */
  ghost predicate Inv(g: Graph, s: State, A: seq<nat>, heads: seq<nat>) {
    && Sized(g, s) && Stacked(g, s) && Marked(g, s) && Chained(g, s)
    && Rooted(g, s, A) && Open(s, A) && Sealed(g, s) && Explored(g, s, A)
    && Numbered(g, s.comp, heads) && s.count == |heads|
  }

  /** t continues s: the stack below is kept with its indices, indices only
      rise, and components once set stay. */
  ghost predicate Extends(g: Graph, s: State, t: State)
    requires Sized(g, s) && Sized(g, t)
  {
    && |s.stack| <= |t.stack| && t.stack[..|s.stack|] == s.stack
    && s.counter <= t.counter
    && (forall v :: 0 <= v < g.order && s.index[v] != 0 ==> s.index[v] <= t.index[v])
    && (forall v :: 0 <= v < g.order && s.comp[v] != 0 ==> t.comp[v] == s.comp[v])
    && (forall i :: 0 <= i < |s.stack| && s.stack[i] < g.order ==> t.index[s.stack[i]] == s.index[s.stack[i]])
  }

  /** Every edge out of the stacked nodes from position p on ends at a
      discovered node whose index is at least low. */
  ghost predicate Low(g: Graph, t: State, p: nat, low: nat)
    requires Sized(g, t)
  {
    forall j: nat, y: nat {:trigger Edge(g, t.stack[j], y)} :: p <= j < |t.stack| && Edge(g, t.stack[j], y) ==> y < g.order && t.index[y] != 0 && low <= t.index[y]
  }

  /** The state right after a call on x starts (:62-65): x is stacked with
      the next index. */

  function Enter(s: State, x: nat): State
    requires x < |s.index|
  {
    State(s.index[x := s.counter + 1], s.counter + 1, s.comp, s.count, s.stack + [x])
  }

  /** u is t with the stack cut back to position p, the popped nodes given
      component number u.count and prefix index G.order. */
  ghost predicate Popped(g: Graph, t: State, p: nat, u: State)
    requires |t.index| == g.order && |t.comp| == g.order && p <= |t.stack|
  {
    && u.stack == t.stack[..p] && u.counter == t.counter && u.count == t.count + 1
    && |u.index| == g.order && |u.comp| == g.order
    && forall v {:trigger u.comp[v]} {:trigger u.index[v]} :: 0 <= v < g.order ==>
         if v in t.stack[p..] then u.comp[v] == u.count && u.index[v] == g.order
         else u.comp[v] == t.comp[v] && u.index[v] == t.index[v]
  }

  /** x is stacked at position p, and every edge out of the nodes stacked
      from p on ends at a node discovered no earlier than x. */
  ghost predicate Top(g: Graph, t: State, p: nat, x: nat)
    requires Sized(g, t)
  {
    p < |t.stack| && t.stack[p] == x && x < g.order && Low(g, t, p, t.index[x])
  }

  /** Processed successors of x: discovered, with index at least ret. */
  ghost predicate Scanned(g: Graph, t: State, x: nat, i: nat, ret: nat)
    requires Valid(g) && x < g.order && i <= |g.adj[x]| && |t.index| == g.order
  {
    forall k :: 0 <= k < i ==> t.index[g.adj[x][k]] != 0 && ret <= t.index[g.adj[x][k]]
  }

  /** The loop over x's successors (:68-75) after i of them: x's call
      started from s0, x sits at position p, and ret is the index of the
      stacked node low that x reaches. */
  ghost predicate Scanning(g: Graph, s0: State, t: State, A: seq<nat>, x: nat, p: nat, heads: seq<nat>,
                           ret: nat, low: nat, i: nat)
  {
    && Valid(g) && x < g.order && i <= |g.adj[x]| && Stack(g, A, x)
    && Inv(g, t, A + [x], heads) && Sized(g, s0) && Extends(g, s0, t)
    && p < |t.stack| && t.stack[p] == x && t.index[x] == s0.counter
    && 1 <= ret <= s0.counter && low in t.stack && low < g.order && t.index[low] == ret && Reach(g, x, low)
    && Low(g, t, p + 1, ret) && Scanned(g, t, x, i, ret)
  }
}
