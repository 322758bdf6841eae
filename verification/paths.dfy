/** Paths and reachability: the reference notions the traversals, Dijkstra's
    algorithm and the spanning tree are measured against. */
module Paths {

  import opened Labels
  import opened Chains
  import opened Graphs

  /** Every chain names only vertices of the graph, so a traversal that
      looks up a target always finds its head vertex. */
  ghost predicate Closed(g: Graph) {
    forall u, v :: HasEdge(g, u, v) ==> v in g.adj
  }

  lemma ValidClosed(g: Graph)
    requires Valid(g)
    ensures Closed(g)
  {
    forall u, v | HasEdge(g, u, v)
      ensures v in g.adj
    {
      assert Fits(g.adj.Keys, u, g.adj[u]);
    }
  }

  /** No vertex has an edge to itself. */
  ghost predicate Loopless(g: Graph) {
    forall u :: !HasEdge(g, u, u)
  }

  lemma ShapedSimple(g: Graph)
    requires Shaped(g.adj)
    ensures Closed(g) && Loopless(g)
  {
    forall u, v | HasEdge(g, u, v)
      ensures v in g.adj && u != v
    {
      assert Fits(g.adj.Keys, u, g.adj[u]);
    }
  }

  /** `p` is a non-empty walk along edges of `g`. */
  ghost predicate IsPath(g: Graph, p: seq<Label>) {
    && |p| > 0
    && (forall i :: 0 <= i < |p| ==> p[i] in g.adj)
    && (forall i :: 0 <= i < |p| - 1 ==> HasEdge(g, p[i], p[i + 1]))
  }

  ghost predicate Reachable(g: Graph, s: Label, t: Label) {
    exists p :: IsPath(g, p) && p[0] == s && p[|p| - 1] == t
  }

  /** The vertices reachable from `s`, `s` included when it is a vertex. */
  ghost function ReachableSet(g: Graph, s: Label): set<Label> {
    set t | t in g.adj && Reachable(g, s, t)
  }

  lemma ReachSelf(g: Graph, s: Label)
    requires s in g.adj
    ensures Reachable(g, s, s)
  {
    assert IsPath(g, [s]);
  }

  lemma ReachEnds(g: Graph, s: Label, t: Label)
    requires Reachable(g, s, t)
    ensures s in g.adj && t in g.adj
  {
  }

  /** A walk to `u` followed by the edge `u -> v` is a walk to `v`. */
  lemma ReachStep(g: Graph, s: Label, u: Label, v: Label)
    requires Reachable(g, s, u) && HasEdge(g, u, v) && v in g.adj
    ensures Reachable(g, s, v)
  {
    var p :| IsPath(g, p) && p[0] == s && p[|p| - 1] == u;
    var q := p + [v];
    assert forall i :: 0 <= i < |p| ==> q[i] == p[i];
    assert IsPath(g, q);
  }

  /** A graph with more vertices and more edges keeps every walk. */
  lemma ReachGrows(g: Graph, g': Graph, s: Label, t: Label)
    requires g.adj.Keys <= g'.adj.Keys
    requires forall a, b :: HasEdge(g, a, b) ==> HasEdge(g', a, b)
    requires Reachable(g, s, t)
    ensures Reachable(g', s, t)
  {
    var p :| IsPath(g, p) && p[0] == s && p[|p| - 1] == t;
    assert IsPath(g', p);
  }

  /** Every vertex of a walk that starts inside a successor-closed set stays
      inside it. */
  lemma {:induction false} PathStaysInside(g: Graph, p: seq<Label>, s: set<Label>)
    requires IsPath(g, p) && p[0] in s
    requires forall u, v :: u in s && HasEdge(g, u, v) ==> v in s
    ensures p[|p| - 1] in s
    decreases |p|
  {
    if |p| > 1 {
      var q := p[..|p| - 1];
      assert IsPath(g, q);
      PathStaysInside(g, q, s);
      assert HasEdge(g, q[|q| - 1], p[|p| - 1]);
    }
  }

  /** A set that holds `origin` and every successor of its members holds
      every vertex reachable from `origin`. */
  lemma ClosedSetHoldsReachable(g: Graph, origin: Label, s: set<Label>)
    requires origin in s
    requires forall u, v :: u in s && HasEdge(g, u, v) ==> v in s
    ensures forall t :: Reachable(g, origin, t) ==> t in s
  {
    forall t | Reachable(g, origin, t)
      ensures t in s
    {
      var p :| IsPath(g, p) && p[0] == origin && p[|p| - 1] == t;
      PathStaysInside(g, p, s);
    }
  }

  /** Every edge weighs at least zero: the setting in which Dijkstra's
      algorithm finds shortest walks. */
  ghost predicate NonNegative(g: Graph) {
    forall a, b :: HasEdge(g, a, b) ==> EdgeWeight(g, a, b) >= 0
  }

  /** The sum of the edge weights along a walk. */
  ghost function PathWeight(g: Graph, p: seq<Label>): int
    requires IsPath(g, p)
    decreases |p|
  {
    if |p| == 1 then 0
    else
      var q := p[..|p| - 1];
      assert IsPath(g, q);
      PathWeight(g, q) + EdgeWeight(g, p[|p| - 2], p[|p| - 1])
  }

  /** Some walk from `s` to `t` weighs exactly `d`. */
  ghost predicate WalkOfWeight(g: Graph, s: Label, t: Label, d: int) {
    exists p :: IsPath(g, p) && p[0] == s && p[|p| - 1] == t && PathWeight(g, p) == d
  }

  lemma WalkStart(g: Graph, s: Label)
    requires s in g.adj
    ensures WalkOfWeight(g, s, s, 0)
  {
    assert IsPath(g, [s]) && PathWeight(g, [s]) == 0;
  }

  /** A walk of weight `d` to `u` followed by the edge `u -> v` is a walk to
      `v` of weight `d` plus the edge's. */
  lemma WalkStep(g: Graph, s: Label, u: Label, d: int, v: Label)
    requires WalkOfWeight(g, s, u, d) && HasEdge(g, u, v) && v in g.adj
    ensures WalkOfWeight(g, s, v, d + EdgeWeight(g, u, v))
  {
    var p :| IsPath(g, p) && p[0] == s && p[|p| - 1] == u && PathWeight(g, p) == d;
    var q := p + [v];
    assert forall i :: 0 <= i < |p| ==> q[i] == p[i];
    assert IsPath(g, q);
    assert q[..|q| - 1] == p;
  }

  /** A weighed walk is a walk. */
  lemma WalkReaches(g: Graph, s: Label, t: Label, d: int)
    requires WalkOfWeight(g, s, t, d)
    ensures Reachable(g, s, t)
  {
  }

  /** Without negative edges a prefix of a walk weighs no more than the
      walk. */
  lemma {:induction false} PrefixWeighsLess(g: Graph, p: seq<Label>, n: int)
    requires IsPath(g, p) && 1 <= n <= |p|
    ensures IsPath(g, p[..n])
    ensures NonNegative(g) ==> PathWeight(g, p[..n]) <= PathWeight(g, p)
    decreases |p| - n
  {
    assert forall i :: 0 <= i < n ==> p[..n][i] == p[i];
    if n < |p| {
      var q := p[..|p| - 1];
      assert IsPath(g, q);
      PrefixWeighsLess(g, q, n);
      assert q[..n] == p[..n];
      assert HasEdge(g, p[|p| - 2], p[|p| - 1]);
      assert PathWeight(g, p) == PathWeight(g, q) + EdgeWeight(g, p[|p| - 2], p[|p| - 1]);
    } else {
      assert p[..n] == p;
    }
  }
}
