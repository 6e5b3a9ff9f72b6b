/**
 The feedback check of the configuration compiler: a connection that lies on a directed cycle needs
 feedback-capable ports at both ends. The cycle test is a depth-first search with one visited set.
 */
module Feedback {

  type Node = string
  type Adjacency = map<Node, seq<Node>>

  datatype Connection = Connection(source: Node, target: Node, sourceFeedback: bool, targetFeedback: bool)

  predicate Edge(g: Adjacency, u: Node, v: Node) {
    u in g && v in g[u]
  }

  // ----- walks and cycles -----

  ghost predicate IsWalk(g: Adjacency, w: seq<Node>) {
    forall i :: 0 <= i < |w| - 1 ==> Edge(g, w[i], w[i + 1])
  }

  ghost predicate WalkBetween(g: Adjacency, w: seq<Node>, u: Node, v: Node) {
    w != [] && w[0] == u && w[|w| - 1] == v && IsWalk(g, w)
  }

  ghost predicate Reachable(g: Adjacency, u: Node, v: Node) {
    exists w :: WalkBetween(g, w, u, v)
  }

  ghost predicate Distinct(w: seq<Node>) {
    forall i, j :: 0 <= i < j < |w| ==> w[i] != w[j]
  }

  /** A walk that returns to its start and otherwise visits no node twice. */
  ghost predicate SimpleCycle(g: Adjacency, w: seq<Node>) {
    |w| >= 2 && IsWalk(g, w) && w[0] == w[|w| - 1] && Distinct(w[1..])
  }

  ghost predicate OnCycle(g: Adjacency, u: Node, v: Node) {
    exists w, k: nat :: SimpleCycle(g, w) && k < |w| - 1 && w[k] == u && w[k + 1] == v
  }

  lemma WalkJoin(g: Adjacency, a: seq<Node>, b: seq<Node>)
    requires IsWalk(g, a) && IsWalk(g, b)
    requires a != [] && b != [] ==> Edge(g, a[|a| - 1], b[0])
    ensures IsWalk(g, a + b)
  {
    var w := a + b;
    forall i | 0 <= i < |w| - 1 ensures Edge(g, w[i], w[i + 1]) {
      if i < |a| - 1 {
        assert Edge(g, a[i], a[i + 1]);
      } else if i >= |a| {
        assert Edge(g, b[i - |a|], b[i - |a| + 1]);
      }
    }
  }

  lemma WalkSlice(g: Adjacency, w: seq<Node>, i: nat, j: nat)
    requires IsWalk(g, w) && i <= j <= |w|
    ensures IsWalk(g, w[i..j])
  {
    forall k | 0 <= k < |w[i..j]| - 1 ensures Edge(g, w[i..j][k], w[i..j][k + 1]) {
      assert Edge(g, w[i + k], w[i + k + 1]);
    }
  }

  /** A walk that visits a node twice can be shortened; so a shortest one visits none twice. */
  lemma {:induction false} SimpleWalkExists(g: Adjacency, w: seq<Node>, u: Node, v: Node) returns (p: seq<Node>)
    requires WalkBetween(g, w, u, v)
    ensures WalkBetween(g, p, u, v) && Distinct(p)
    decreases |w|
  {
    if Distinct(w) {
      p := w;
    } else {
      var i, j :| 0 <= i < j < |w| && w[i] == w[j];
      var shorter := w[..i] + w[j..];
      WalkSlice(g, w, 0, i);
      WalkSlice(g, w, j, |w|);
      assert w[..i] == w[0..i] && w[j..] == w[j..|w|];
      if i > 0 {
        assert Edge(g, w[i - 1], w[i]);
      }
      WalkJoin(g, w[..i], w[j..]);
      p := SimpleWalkExists(g, shorter, u, v);
    }
  }

  /** An edge lies on a simple directed cycle exactly when its target reaches its source. */
  lemma OnCycleIffReachable(g: Adjacency, u: Node, v: Node)
    requires Edge(g, u, v)
    ensures OnCycle(g, u, v) <==> Reachable(g, v, u)
  {
    if OnCycle(g, u, v) {
      var w, k: nat :| SimpleCycle(g, w) && k < |w| - 1 && w[k] == u && w[k + 1] == v;
      var after, before := w[k + 1..], w[1..k + 1];
      WalkSlice(g, w, k + 1, |w|);
      WalkSlice(g, w, 1, k + 1);
      assert after == w[k + 1..|w|];
      if before != [] {
        assert Edge(g, w[0], w[1]);
      }
      WalkJoin(g, after, before);
      assert WalkBetween(g, after + before, v, u);
    }
    if Reachable(g, v, u) {
      var w :| WalkBetween(g, w, v, u);
      var p := SimpleWalkExists(g, w, v, u);
      WalkJoin(g, [u], p);
      var cycle := [u] + p;
      assert cycle[1..] == p;
      assert SimpleCycle(g, cycle) && cycle[0] == u && cycle[0 + 1] == v;
    }
  }

  // ----- the search -----

  /** Everything the search can meet. */
  function Universe(g: Adjacency): (all: set<Node>)
    ensures forall u, v :: Edge(g, u, v) ==> u in all && v in all
  {
    g.Keys + set u, v | u in g && v in g[u] :: v
  }

  /** All edges out of `inner` stay in `outer`. */
  ghost predicate ClosedInto(g: Adjacency, inner: set<Node>, outer: set<Node>) {
    forall u, v :: u in inner && Edge(g, u, v) ==> v in outer
  }

  lemma {:induction false} ClosedSetTrapsWalks(g: Adjacency, s: set<Node>, w: seq<Node>, u: Node, v: Node)
    requires ClosedInto(g, s, s) && u in s && WalkBetween(g, w, u, v)
    ensures v in s
    decreases |w|
  {
    if |w| > 1 {
      assert Edge(g, w[0], w[1]);
      WalkSlice(g, w, 1, |w|);
      assert w[1..] == w[1..|w|];
      ClosedSetTrapsWalks(g, s, w[1..], w[1], v);
    }
  }

  lemma ReachableStep(g: Adjacency, u: Node, m: Node, v: Node)
    requires Edge(g, u, m) && Reachable(g, m, v)
    ensures Reachable(g, u, v)
  {
    var w :| WalkBetween(g, w, m, v);
    WalkJoin(g, [u], w);
    assert WalkBetween(g, [u] + w, u, v);
  }

  /**
   The recursive search with its shared visited set threaded through. On failure every node it has newly
   visited has all its successors visited, whatever was visited before; each nested call is on a node
   outside the visited set or returns at once, so the search terminates.
   */
  method Search(g: Adjacency, from: Node, node: Node, seen: set<Node>)
    returns (found: bool, seen': set<Node>)
    requires from !in seen && seen <= Universe(g) + {node}
    requires node in Universe(g) || seen == {}
    ensures seen <= seen' <= Universe(g) + {node} && from !in seen'
    ensures found ==> Reachable(g, node, from)
    ensures !found ==> node in seen' && ClosedInto(g, seen' - seen, seen')
    decreases Universe(g) + {node} - seen
  {
    if node == from {
      assert WalkBetween(g, [node], node, from);
      return true, seen;
    }
    if node in seen {
      return false, seen;
    }
    seen' := seen + {node};
    found := false;
    var successors := if node in g then g[node] else [];
    for i := 0 to |successors|
      invariant seen + {node} <= seen' <= Universe(g) + {node} && from !in seen'
      invariant forall j :: 0 <= j < i ==> successors[j] in seen'
      invariant ClosedInto(g, seen' - seen - {node}, seen')
    {
      var next := successors[i];
      assert Edge(g, node, next);
      ghost var before := seen';
      found, seen' := Search(g, from, next, seen');
      if found {
        ReachableStep(g, node, next, from);
        return;
      }
    }
  }

  /** `reaches(to)` with a fresh visited set is exactly reachability of the source. */
  method Reaches(g: Adjacency, from: Node, to: Node) returns (found: bool)
    ensures found <==> Reachable(g, to, from)
  {
    var seen;
    found, seen := Search(g, from, to, {});
    if !found {
      forall w | WalkBetween(g, w, to, from) ensures false {
        ClosedSetTrapsWalks(g, seen, w, to, from);
      }
    }
  }

  // ----- the check -----

  ghost predicate HasConnection(connections: seq<Connection>, u: Node, v: Node) {
    exists c :: c in connections && c.source == u && c.target == v
  }

  method BuildAdjacency(connections: seq<Connection>) returns (g: Adjacency)
    ensures forall u, v :: Edge(g, u, v) <==> HasConnection(connections, u, v)
  {
    g := map[];
    for i := 0 to |connections|
      invariant forall u, v :: Edge(g, u, v) <==> HasConnection(connections[..i], u, v)
    {
      var c := connections[i];
      var row := if c.source in g then g[c.source] else [];
      var g' := g[c.source := row + [c.target]];
      forall u, v ensures Edge(g', u, v) <==> HasConnection(connections[..i + 1], u, v) {
        EdgeAdded(g, g', connections, i, u, v);
      }
      g := g';
    }
    assert connections[..|connections|] == connections;
  }

  lemma EdgeAdded(g: Adjacency, g': Adjacency, connections: seq<Connection>, i: nat, u: Node, v: Node)
    requires i < |connections|
    requires Edge(g, u, v) <==> HasConnection(connections[..i], u, v)
    requires var c := connections[i];
      g' == g[c.source := (if c.source in g then g[c.source] else []) + [c.target]]
    ensures Edge(g', u, v) <==> HasConnection(connections[..i + 1], u, v)
  {
    var c := connections[i];
    assert connections[..i + 1] == connections[..i] + [c];
    assert Edge(g', u, v) <==> Edge(g, u, v) || (u == c.source && v == c.target);
    if HasConnection(connections[..i + 1], u, v) {
      var d :| d in connections[..i + 1] && d.source == u && d.target == v;
      assert d in connections[..i] || d == c;
    }
    if HasConnection(connections[..i], u, v) {
      var d :| d in connections[..i] && d.source == u && d.target == v;
      assert d in connections[..i + 1];
    }
    assert c in connections[..i + 1];
  }

  ghost predicate Acceptable(g: Adjacency, c: Connection) {
    OnCycle(g, c.source, c.target) ==> c.sourceFeedback && c.targetFeedback
  }

  /**
   Accepts the connections exactly when each one lies on no directed cycle or has feedback at both ends;
   otherwise reports the first one that does not.
   */
  method CheckFeedback(connections: seq<Connection>) returns (rejected: int, ghost g: Adjacency)
    ensures forall u, v :: Edge(g, u, v) <==> HasConnection(connections, u, v)
    ensures -1 <= rejected < |connections|
    ensures rejected < 0 <==> forall c :: c in connections ==> Acceptable(g, c)
    ensures rejected >= 0 ==> !Acceptable(g, connections[rejected])
    ensures rejected >= 0 ==> forall i :: 0 <= i < rejected ==> Acceptable(g, connections[i])
  {
    var adjacency := BuildAdjacency(connections);
    g := adjacency;
    for i := 0 to |connections|
      invariant forall j :: 0 <= j < i ==> Acceptable(g, connections[j])
    {
      var c := connections[i];
      assert HasConnection(connections, c.source, c.target);
      OnCycleIffReachable(g, c.source, c.target);
      var onCycle := Reaches(adjacency, c.source, c.target);
      if onCycle && !(c.sourceFeedback && c.targetFeedback) {
        assert c in connections && !Acceptable(g, c);
        return i, g;
      }
    }
    return -1, g;
  }
}
