/** Prim's spanning tree (`MinSpanningTree` and `nextMinEdge`,
    graph.cpp:300-332 and 655-692).

    Starting from the origin, each round scans every edge out of a visited
    vertex into an unvisited one, in key order of the source and chain order
    of the target, keeps the first of least weight below `INT_MAX`, marks its
    target visited and copies the edge into the tree. The rounds stop when no
    such edge is left. The visited flags of the C++ class are a set here, so
    the final `unvisitVertices` has nothing to undo. */
module SpanningTrees {

  import opened Labels
  import opened Options
  import opened Chains
  import opened Graphs
  import opened Paths

  /** An edge `source -> target` of weight `weight`, as `nextMinEdge` hands
      it back through `curr`, `next` and `label`. */
  datatype Candidate = Candidate(source: Label, target: Label, weight: Weight)

  /** An edge the scan may take: out of a visited vertex into an unvisited
      one, and lighter than `INT_MAX`. */
  ghost predicate Eligible(g: Graph, visited: set<Label>, a: Label, b: Label) {
    a in visited && HasEdge(g, a, b) && b !in visited && EdgeWeight(g, a, b) < IntMax
  }

  /** The scan prefers `x` to `y`: lighter, or as heavy and earlier in key
      order of the source, then of the target. */
  predicate Precedes(x: Candidate, y: Candidate) {
    || x.weight < y.weight
    || (x.weight == y.weight && (Less(x.source, y.source) || (x.source == y.source && Less(x.target, y.target))))
  }

  /** There is a best candidate, and it is `x` or preferred to it. */
  ghost predicate Covered(best: Option<Candidate>, x: Candidate) {
    best.Some? && (best.value == x || Precedes(best.value, x))
  }

  /** The chain node `e` leads to an unvisited vertex below `INT_MAX`. */
  ghost predicate Open(visited: set<Label>, e: Edge) {
    e.target !in visited && e.weight < IntMax
  }

  /** The best candidate so far is a node of a visited vertex's chain that is
      open, and `minWeight` is its weight; with none, `minWeight` is
      `INT_MAX`. */
  ghost predicate Genuine(g: Graph, visited: set<Label>, best: Option<Candidate>, minWeight: int) {
    if best.None? then minWeight == IntMax
    else
      var x := best.value;
      && x.source in visited && x.source in g.adj
      && Edge(x.target, x.weight) in g.adj[x.source].chain
      && Open(visited, Edge(x.target, x.weight))
      && minWeight == x.weight
  }

  /** `best` is `best0` or a strictly lighter candidate. */
  ghost predicate Upgrade(best0: Option<Candidate>, best: Option<Candidate>) {
    best == best0 || (best.Some? && (best0.None? || best.value.weight < best0.value.weight))
  }

  lemma CoveredUpgrade(best0: Option<Candidate>, best: Option<Candidate>, x: Candidate)
    requires Covered(best0, x) && Upgrade(best0, best)
    ensures Covered(best, x)
  {
  }

  /** `x` is what `nextMinEdge` picks for `visited`: an eligible edge with
      its weight, preferred to or equal to every eligible edge. */
  ghost predicate Picked(g: Graph, visited: set<Label>, x: Candidate) {
    && Eligible(g, visited, x.source, x.target)
    && x.weight == EdgeWeight(g, x.source, x.target)
    && forall a, b :: Eligible(g, visited, a, b) ==> Covered(Some(x), Candidate(a, b, EdgeWeight(g, a, b)))
  }

  /** The scan's preference never runs both ways. */
  lemma PrecedesAsymmetric(x: Candidate, y: Candidate)
    ensures !(Precedes(x, y) && Precedes(y, x))
  {
    LessAsymmetric(x.source, y.source);
    LessAsymmetric(x.target, y.target);
    LessIrreflexive(x.source);
  }

  /** There is only one pick: the scan's choice is determined. */
  lemma PickedUnique(g: Graph, visited: set<Label>, x: Candidate, y: Candidate)
    requires Picked(g, visited, x) && Picked(g, visited, y)
    ensures x == y
  {
    assert Covered(Some(x), Candidate(y.source, y.target, EdgeWeight(g, y.source, y.target)));
    assert Covered(Some(y), Candidate(x.source, x.target, EdgeWeight(g, x.source, x.target)));
    PrecedesAsymmetric(x, y);
  }

  /** Every open node of `a`'s chain is covered by `best`. */
  ghost predicate AllCovered(g: Graph, visited: set<Label>, best: Option<Candidate>, a: Label) {
    a in g.adj &&
    forall e :: e in g.adj[a].chain && Open(visited, e) ==> Covered(best, Candidate(a, e.target, e.weight))
  }

  /** The walk along `a`'s chain has looked at its first `j` nodes; `best`
      is still `best0` or a lighter node of this chain at position `at`. */
  ghost predicate ChainInv(g: Graph, visited: set<Label>, a: Label, best0: Option<Candidate>,
                           best: Option<Candidate>, minWeight: int, j: int, at: int) {
    && a in g.adj && a in visited && Sorted(g.adj[a].chain)
    && 0 <= j <= |g.adj[a].chain|
    && (best0.Some? ==> Less(best0.value.source, a))
    && Genuine(g, visited, best, minWeight)
    && Upgrade(best0, best)
    && (best != best0 ==>
          best.value.source == a && 0 <= at < j && g.adj[a].chain[at] == Edge(best.value.target, best.value.weight))
    && (forall k :: 0 <= k < j && Open(visited, g.adj[a].chain[k]) ==>
          Covered(best, Candidate(a, g.adj[a].chain[k].target, g.adj[a].chain[k].weight)))
  }

  /** A node lighter than the best so far and leading out becomes the best. */
  lemma ChainTake(g: Graph, visited: set<Label>, a: Label, best0: Option<Candidate>,
                  best: Option<Candidate>, minWeight: int, j: int, at: int)
    requires ChainInv(g, visited, a, best0, best, minWeight, j, at) && j < |g.adj[a].chain|
    requires var e := g.adj[a].chain[j]; e.weight < minWeight && e.target !in visited
    ensures var e := g.adj[a].chain[j];
            ChainInv(g, visited, a, best0, Some(Candidate(a, e.target, e.weight)), e.weight, j + 1, j)
  {
    var c := g.adj[a].chain;
    var x := Candidate(a, c[j].target, c[j].weight);
    forall k | 0 <= k < j + 1 && Open(visited, c[k])
      ensures Covered(Some(x), Candidate(a, c[k].target, c[k].weight))
    {
      if k < j {
        assert Covered(best, Candidate(a, c[k].target, c[k].weight));
      }
    }
  }

  /** Any other node leaves the best as it was and is covered by it. */
  lemma ChainSkip(g: Graph, visited: set<Label>, a: Label, best0: Option<Candidate>,
                  best: Option<Candidate>, minWeight: int, j: int, at: int)
    requires ChainInv(g, visited, a, best0, best, minWeight, j, at) && j < |g.adj[a].chain|
    requires var e := g.adj[a].chain[j]; !(e.weight < minWeight && e.target !in visited)
    ensures ChainInv(g, visited, a, best0, best, minWeight, j + 1, at)
  {
    var c := g.adj[a].chain;
    if Open(visited, c[j]) && best.Some? && best.value.weight == c[j].weight {
      if best != best0 {
        SortedPairs(c, at, j);
      }
    }
  }

  /** At the end of the chain every open node of it is covered. */
  lemma ChainEnd(g: Graph, visited: set<Label>, a: Label, best0: Option<Candidate>,
                 best: Option<Candidate>, minWeight: int, at: int)
    requires a in g.adj && ChainInv(g, visited, a, best0, best, minWeight, |g.adj[a].chain|, at)
    ensures AllCovered(g, visited, best, a)
  {
    var c := g.adj[a].chain;
    forall e | e in c && Open(visited, e)
      ensures Covered(best, Candidate(a, e.target, e.weight))
    {
      var k :| 0 <= k < |c| && c[k] == e;
    }
  }

  /** The inner loop of `nextMinEdge` (graph.cpp:666-681) for one visited
      source `a`: along its chain, a node leading to an unvisited vertex and
      strictly lighter than the best so far replaces it. Afterwards every
      open node of the chain is covered, and the best changed only to a
      lighter node of this chain. */
  method ScanChain(g: Graph, visited: set<Label>, a: Label, best0: Option<Candidate>, min0: int)
    returns (best: Option<Candidate>, minWeight: int)
    requires a in g.adj && a in visited && Sorted(g.adj[a].chain)
    requires Genuine(g, visited, best0, min0)
    requires best0.Some? ==> Less(best0.value.source, a)
    ensures Genuine(g, visited, best, minWeight)
    ensures Upgrade(best0, best)
    ensures best != best0 ==> best.value.source == a
    ensures AllCovered(g, visited, best, a)
  {
    var c := g.adj[a].chain;
    best, minWeight := best0, min0;
    ghost var at := 0;
    var j := 0;
    while j < |c|
      invariant ChainInv(g, visited, a, best0, best, minWeight, j, at)
      decreases |c| - j
    {
      var e := c[j];
      if e.weight < minWeight && e.target !in visited {
        ChainTake(g, visited, a, best0, best, minWeight, j, at);
        best := Some(Candidate(a, e.target, e.weight));
        minWeight := e.weight;
        at := j;
      } else {
        ChainSkip(g, visited, a, best0, best, minWeight, j, at);
      }
      j := j + 1;
    }
    ChainEnd(g, visited, a, best0, best, minWeight, at);
  }

  /** The outer loop has handled the first `i` keys: every open edge out of
      a visited one is covered, and the best comes out of one of them. */
  ghost predicate KeysInv(g: Graph, visited: set<Label>, keys: seq<Label>, i: int,
                          best: Option<Candidate>, minWeight: int, from: int) {
    && keys == SortedLabels(g.adj.Keys)
    && 0 <= i <= |keys|
    && Genuine(g, visited, best, minWeight)
    && (best.Some? ==> 0 <= from < i && keys[from] == best.value.source)
    && (forall k :: 0 <= k < i && keys[k] in visited ==> AllCovered(g, visited, best, keys[k]))
  }

  /** The best so far comes from a source before the `i`-th key. */
  lemma KeysBefore(g: Graph, visited: set<Label>, keys: seq<Label>, i: int,
                   best: Option<Candidate>, minWeight: int, from: int)
    requires KeysInv(g, visited, keys, i, best, minWeight, from) && i < |keys|
    ensures best.Some? ==> Less(best.value.source, keys[i])
  {
    SortedLabelsAscending(g.adj.Keys);
  }

  /** An unvisited key adds nothing to look at. */
  lemma KeysSkip(g: Graph, visited: set<Label>, keys: seq<Label>, i: int,
                 best: Option<Candidate>, minWeight: int, from: int)
    requires KeysInv(g, visited, keys, i, best, minWeight, from) && i < |keys| && keys[i] !in visited
    ensures KeysInv(g, visited, keys, i + 1, best, minWeight, from)
  {
  }

  /** After the walk along a visited key's chain the earlier keys stay
      covered, since the best only got lighter. */
  lemma KeysScan(g: Graph, visited: set<Label>, keys: seq<Label>, i: int,
                 best0: Option<Candidate>, min0: int, from: int,
                 best: Option<Candidate>, minWeight: int)
    requires KeysInv(g, visited, keys, i, best0, min0, from) && i < |keys|
    requires Genuine(g, visited, best, minWeight) && Upgrade(best0, best)
    requires best != best0 ==> best.value.source == keys[i]
    requires AllCovered(g, visited, best, keys[i])
    ensures KeysInv(g, visited, keys, i + 1, best, minWeight, if best != best0 then i else from)
  {
    forall k | 0 <= k < i && keys[k] in visited
      ensures AllCovered(g, visited, best, keys[k])
    {
      assert AllCovered(g, visited, best0, keys[k]);
      forall e | e in g.adj[keys[k]].chain && Open(visited, e)
        ensures Covered(best, Candidate(keys[k], e.target, e.weight))
      {
        CoveredUpgrade(best0, best, Candidate(keys[k], e.target, e.weight));
      }
    }
  }

  /** Reading the finished scan back in terms of edges of the graph. */
  lemma KeysResult(g: Graph, visited: set<Label>, keys: seq<Label>,
                   best: Option<Candidate>, minWeight: int, from: int)
    requires Shaped(g.adj)
    requires KeysInv(g, visited, keys, |keys|, best, minWeight, from)
    ensures best.Some? ==> Eligible(g, visited, best.value.source, best.value.target)
    ensures best.Some? ==> best.value.weight == EdgeWeight(g, best.value.source, best.value.target)
    ensures forall a, b :: Eligible(g, visited, a, b) ==> Covered(best, Candidate(a, b, EdgeWeight(g, a, b)))
  {
    if best.Some? {
      var x := best.value;
      var c := g.adj[x.source].chain;
      assert Fits(g.adj.Keys, x.source, g.adj[x.source]);
      TargetsMembers(c);
      assert Adjacent(c, x.target) == Some(x.weight);
    }
    forall a, b | Eligible(g, visited, a, b)
      ensures Covered(best, Candidate(a, b, EdgeWeight(g, a, b)))
    {
      var k :| 0 <= k < |keys| && keys[k] == a;
      assert AllCovered(g, visited, best, keys[k]);
      assert Edge(b, EdgeWeight(g, a, b)) in g.adj[a].chain;
    }
  }

  /** `nextMinEdge` (graph.cpp:655-692) without the flag updates: over the
      sources in key order and, for visited ones, their chains in order,
      keep the first edge into an unvisited vertex strictly lighter than the
      best so far, starting from `INT_MAX`. The result is an eligible edge
      with its weight, preferred to or equal to every eligible edge: the
      lightest, and among the lightest the least by source, then target.
      `None` comes back exactly when no edge is eligible. */
  method NextMinEdge(g: Graph, visited: set<Label>) returns (r: Option<Candidate>)
    requires Shaped(g.adj)
    ensures r.Some? ==> Eligible(g, visited, r.value.source, r.value.target)
    ensures r.Some? ==> r.value.weight == EdgeWeight(g, r.value.source, r.value.target)
    ensures r.None? ==> forall a, b :: !Eligible(g, visited, a, b)
    ensures forall a, b :: Eligible(g, visited, a, b) ==> Covered(r, Candidate(a, b, EdgeWeight(g, a, b)))
    ensures r.Some? ==> Picked(g, visited, r.value)
  {
    var keys := SortedLabels(g.adj.Keys);
    var minWeight := IntMax;
    r := None;
    ghost var from := 0;
    var i := 0;
    while i < |keys|
      invariant KeysInv(g, visited, keys, i, r, minWeight, from)
      decreases |keys| - i
    {
      var a := keys[i];
      if a in visited {
        KeysBefore(g, visited, keys, i, r, minWeight, from);
        assert Fits(g.adj.Keys, a, g.adj[a]);
        var r', minWeight' := ScanChain(g, visited, a, r, minWeight);
        KeysScan(g, visited, keys, i, r, minWeight, from, r', minWeight');
        from := if r' != r then i else from;
        r, minWeight := r', minWeight';
      } else {
        KeysSkip(g, visited, keys, i, r, minWeight, from);
      }
      i := i + 1;
    }
    KeysResult(g, visited, keys, r, minWeight, from);
  }

  /** The vertices visited after `steps`: the origin and each step's
      target. */
  ghost function Grown(origin: Label, steps: seq<Candidate>): set<Label> {
    {origin} + set i | 0 <= i < |steps| :: steps[i].target
  }

  /** The edges those steps copy into the tree, with their weights. */
  ghost function StepEdges(steps: seq<Candidate>): set<(Label, Label, Weight)> {
    set i | 0 <= i < |steps| :: (steps[i].source, steps[i].target, steps[i].weight)
  }

  /** Every step is the pick of `nextMinEdge` for the vertices the earlier
      steps visited. */
  ghost predicate Greedy(g: Graph, origin: Label, steps: seq<Candidate>) {
    forall i :: 0 <= i < |steps| ==> Picked(g, Grown(origin, steps[..i]), steps[i])
  }

  /** No edge is eligible once the steps are taken: the rounds stop. */
  ghost predicate Stopped(g: Graph, origin: Label, steps: seq<Candidate>) {
    forall a, b :: !Eligible(g, Grown(origin, steps), a, b)
  }

  lemma GrownAppend(origin: Label, steps: seq<Candidate>, x: Candidate)
    ensures Grown(origin, steps + [x]) == Grown(origin, steps) + {x.target}
    ensures StepEdges(steps + [x]) == StepEdges(steps) + {(x.source, x.target, x.weight)}
  {
    var s := steps + [x];
    assert forall i :: 0 <= i < |steps| ==> s[i] == steps[i];
    assert s[|steps|] == x;
  }

  /** Taking the current pick extends a greedy run. */
  lemma GreedyExtend(g: Graph, origin: Label, steps: seq<Candidate>, x: Candidate)
    requires Greedy(g, origin, steps) && Picked(g, Grown(origin, steps), x)
    ensures Greedy(g, origin, steps + [x])
  {
    var s := steps + [x];
    forall i | 0 <= i < |s|
      ensures Picked(g, Grown(origin, s[..i]), s[i])
    {
      if i < |steps| {
        assert s[..i] == steps[..i];
        assert s[i] == steps[i];
      } else {
        assert s[..i] == steps;
      }
    }
  }

  /** Two greedy runs agree on every step both have taken. */
  lemma {:induction false} GreedyPrefix(g: Graph, origin: Label, s1: seq<Candidate>, s2: seq<Candidate>, n: nat)
    requires Greedy(g, origin, s1) && Greedy(g, origin, s2)
    requires n <= |s1| && n <= |s2|
    ensures s1[..n] == s2[..n]
  {
    if n > 0 {
      GreedyPrefix(g, origin, s1, s2, n - 1);
      assert s1[..n - 1][..n - 1] == s1[..n - 1];
      assert Picked(g, Grown(origin, s1[..n - 1]), s1[n - 1]);
      assert Picked(g, Grown(origin, s2[..n - 1]), s2[n - 1]);
      PickedUnique(g, Grown(origin, s1[..n - 1]), s1[n - 1], s2[n - 1]);
      assert s1[..n] == s1[..n - 1] + [s1[n - 1]];
      assert s2[..n] == s2[..n - 1] + [s2[n - 1]];
    }
  }

  /** The greedy rounds are determined: two greedy runs that both stop are
      the same run. */
  lemma GreedyDetermined(g: Graph, origin: Label, s1: seq<Candidate>, s2: seq<Candidate>)
    requires Greedy(g, origin, s1) && Stopped(g, origin, s1)
    requires Greedy(g, origin, s2) && Stopped(g, origin, s2)
    ensures s1 == s2
  {
    if |s1| < |s2| {
      GreedyLonger(g, origin, s1, s2);
      assert false;
    } else if |s2| < |s1| {
      GreedyLonger(g, origin, s2, s1);
      assert false;
    } else {
      GreedyPrefix(g, origin, s1, s2, |s1|);
      assert s1 == s1[..|s1|] && s2 == s2[..|s2|];
    }
  }

  /** A longer greedy run takes, after the steps of a shorter one, an edge
      still eligible for the shorter one: so a run that stops is no proper
      prefix of another. */
  lemma GreedyLonger(g: Graph, origin: Label, s1: seq<Candidate>, s2: seq<Candidate>)
    requires Greedy(g, origin, s1) && Greedy(g, origin, s2) && |s1| < |s2|
    ensures Eligible(g, Grown(origin, s1), s2[|s1|].source, s2[|s1|].target)
  {
    var m := |s1|;
    GreedyPrefix(g, origin, s1, s2, m);
    assert s1[..m] == s1;
    assert Picked(g, Grown(origin, s2[..m]), s2[m]);
  }

  /** The tree so far: a valid graph on the visited vertices, inside `g`,
      with one edge fewer than vertices. */
  ghost predicate TreeShape(g: Graph, origin: Label, t: Graph, visited: set<Label>) {
    && Valid(t) && t.adj.Keys == visited
    && visited <= g.adj.Keys && origin in visited
    && EdgeSet(t) <= EdgeSet(g)
    && t.edges == |visited| - 1
  }

  /** Every tree vertex is reachable from the origin, in the tree and in
      `g`. */
  ghost predicate TreeReach(g: Graph, origin: Label, t: Graph) {
    forall v :: v in t.adj ==> Reachable(t, origin, v) && Reachable(g, origin, v)
  }

  /** No tree edge enters the origin, and none enters a vertex twice. */
  ghost predicate TreeParents(origin: Label, t: Graph) {
    && (forall a, b :: HasEdge(t, a, b) ==> b != origin)
    && (forall a, a', b :: HasEdge(t, a, b) && HasEdge(t, a', b) ==> a == a')
  }

  lemma TreeStart(g: Graph, origin: Label)
    requires origin in g.adj
    ensures var t := AddVertex(Empty, origin).0;
            TreeShape(g, origin, t, {origin}) && TreeReach(g, origin, t) && TreeParents(origin, t)
  {
    var t := AddVertex(Empty, origin).0;
    EmptyValid();
    AddVertexKeepsValid(Empty, origin);
    EdgeSetAddFresh(Empty, origin);
    ReachSelf(t, origin);
    ReachSelf(g, origin);
    forall a, b
      ensures !HasEdge(t, a, b)
    {
      AddVertexHasEdge(Empty, origin, a, b);
    }
  }

  /** `Connect`ing an edge from the tree to a vertex outside it adds that
      vertex and that edge and nothing else; no edge entered the vertex
      before. */
  lemma GrowEdges(t: Graph, visited: set<Label>, x: Candidate)
    requires Valid(t) && t.adj.Keys == visited && x.source in visited && x.target !in visited
    ensures var t' := Graphs.Connect(t, x.source, x.target, x.weight).0;
            && t'.adj.Keys == visited + {x.target}
            && (forall a, b :: HasEdge(t', a, b) <==> HasEdge(t, a, b) || (a == x.source && b == x.target))
    ensures forall a :: !HasEdge(t, a, x.target)
  {
    var t' := Graphs.Connect(t, x.source, x.target, x.weight).0;
    forall a, b
      ensures HasEdge(t', a, b) <==> HasEdge(t, a, b) || (a == x.source && b == x.target)
    {
      ConnectHasEdge(t, x.source, x.target, x.weight, a, b);
    }
    ValidClosed(t);
  }

  /** The added edge is the only new triple of the tree. */
  lemma GrowEdgeSet(t: Graph, visited: set<Label>, x: Candidate)
    requires Valid(t) && t.adj.Keys == visited && x.source in visited && x.target !in visited
    ensures EdgeSet(Graphs.Connect(t, x.source, x.target, x.weight).0) == EdgeSet(t) + {(x.source, x.target, x.weight)}
  {
    GrowEdges(t, visited, x);
    ConnectKeepsValid(t, x.source, x.target, x.weight);
  }

  /** The added edge is new and is an edge of `g` with its weight. */
  lemma GrowShape(g: Graph, origin: Label, t: Graph, visited: set<Label>, x: Candidate)
    requires Shaped(g.adj) && TreeShape(g, origin, t, visited)
    requires Eligible(g, visited, x.source, x.target) && x.weight == EdgeWeight(g, x.source, x.target)
    ensures TreeShape(g, origin, Graphs.Connect(t, x.source, x.target, x.weight).0, visited + {x.target})
  {
    assert Fits(t.adj.Keys, x.source, t.adj[x.source]);
    ConnectKeepsValid(t, x.source, x.target, x.weight);
    assert Edge(x.target, x.weight) in g.adj[x.source].chain;
  }

  lemma GrowReach(g: Graph, origin: Label, t: Graph, t': Graph, x: Candidate)
    requires TreeReach(g, origin, t) && x.source in t.adj
    requires HasEdge(g, x.source, x.target) && x.target in g.adj
    requires t'.adj.Keys == t.adj.Keys + {x.target}
    requires forall a, b :: HasEdge(t', a, b) <==> HasEdge(t, a, b) || (a == x.source && b == x.target)
    ensures TreeReach(g, origin, t')
  {
    forall v | v in t'.adj
      ensures Reachable(t', origin, v) && Reachable(g, origin, v)
    {
      if v in t.adj {
        ReachGrows(t, t', origin, v);
      } else {
        ReachGrows(t, t', origin, x.source);
        ReachStep(t', origin, x.source, v);
        ReachStep(g, origin, x.source, v);
      }
    }
  }

  lemma GrowParents(origin: Label, t: Graph, t': Graph, x: Candidate)
    requires TreeParents(origin, t) && x.target != origin
    requires forall a :: !HasEdge(t, a, x.target)
    requires forall a, b :: HasEdge(t', a, b) <==> HasEdge(t, a, b) || (a == x.source && b == x.target)
    ensures TreeParents(origin, t')
  {
  }

  /** `MinSpanningTree` (graph.cpp:300-332) from an existing origin: a new
      graph holding the origin, grown one `nextMinEdge` edge at a time until
      none is left. The result is a valid graph whose edges, with their
      weights, are edges of `g`; it has one edge fewer than vertices, no edge
      enters the origin and none enters a vertex twice, and every vertex is
      reachable from the origin along the tree: a tree rooted at the origin.
      Its vertices are reachable in `g`, and no edge of `g` lighter than
      `INT_MAX` leaves it; so when every edge is lighter than `INT_MAX` its
      vertices are exactly those reachable from the origin. The ghost
      `steps` are the rounds in order: each is the pick of `nextMinEdge` for
      the vertices visited so far, no edge is eligible after the last, and
      the tree holds exactly their targets and edges. By `GreedyDetermined`
      these rounds, and so the tree, are unique. */
  method MinSpanningTree(g: Graph, origin: Label) returns (t: Graph, ghost steps: seq<Candidate>)
    requires Shaped(g.adj) && origin in g.adj
    ensures Greedy(g, origin, steps) && Stopped(g, origin, steps)
    ensures t.adj.Keys == Grown(origin, steps) && EdgeSet(t) == StepEdges(steps)
    ensures Valid(t) && origin in t.adj && t.adj.Keys <= g.adj.Keys
    ensures EdgeSet(t) <= EdgeSet(g)
    ensures t.edges == |t.adj| - 1
    ensures forall a, b :: HasEdge(t, a, b) ==> b != origin
    ensures forall a, a', b :: HasEdge(t, a, b) && HasEdge(t, a', b) ==> a == a'
    ensures forall v :: v in t.adj ==> Reachable(t, origin, v) && Reachable(g, origin, v)
    ensures forall a, b :: a in t.adj && HasEdge(g, a, b) && b !in t.adj ==> EdgeWeight(g, a, b) >= IntMax
    ensures (forall a, b :: HasEdge(g, a, b) ==> EdgeWeight(g, a, b) < IntMax) ==>
              t.adj.Keys == ReachableSet(g, origin)
  {
    t := AddVertex(Empty, origin).0;
    steps := [];
    var visited := {origin};
    TreeStart(g, origin);
    assert EdgeSet(t) == {} == StepEdges(steps);
    var next := NextMinEdge(g, visited);
    while next.Some?
      invariant TreeShape(g, origin, t, visited) && TreeReach(g, origin, t) && TreeParents(origin, t)
      invariant visited == Grown(origin, steps) && EdgeSet(t) == StepEdges(steps)
      invariant Greedy(g, origin, steps)
      invariant next.Some? ==> Picked(g, visited, next.value)
      invariant next.None? ==> forall a, b :: !Eligible(g, visited, a, b)
      decreases |g.adj.Keys - visited|
    {
      var x := next.value;
      var t' := Graphs.Connect(t, x.source, x.target, x.weight).0;
      assert Fits(g.adj.Keys, x.source, g.adj[x.source]);
      GrowEdges(t, visited, x);
      GrowShape(g, origin, t, visited, x);
      GrowEdgeSet(t, visited, x);
      GrowReach(g, origin, t, t', x);
      GrowParents(origin, t, t', x);
      MarkShrinks(g.adj.Keys, visited, x.target);
      GreedyExtend(g, origin, steps, x);
      GrownAppend(origin, steps, x);
      t := t';
      steps := steps + [x];
      visited := visited + {x.target};
      next := NextMinEdge(g, visited);
    }
    TreeDone(g, origin, t, visited);
  }

  /** With nothing eligible left the tree is closed under edges of `g`
      lighter than `INT_MAX`. */
  lemma TreeDone(g: Graph, origin: Label, t: Graph, visited: set<Label>)
    requires t.adj.Keys == visited && visited <= g.adj.Keys && origin in visited
    requires TreeReach(g, origin, t)
    requires forall a, b :: !Eligible(g, visited, a, b)
    ensures forall a, b :: a in t.adj && HasEdge(g, a, b) && b !in t.adj ==> EdgeWeight(g, a, b) >= IntMax
    ensures (forall a, b :: HasEdge(g, a, b) ==> EdgeWeight(g, a, b) < IntMax) ==>
              t.adj.Keys == ReachableSet(g, origin)
  {
    forall a, b | a in t.adj && HasEdge(g, a, b) && b !in t.adj
      ensures EdgeWeight(g, a, b) >= IntMax
    {
      assert !Eligible(g, visited, a, b);
    }
    if forall a, b :: HasEdge(g, a, b) ==> EdgeWeight(g, a, b) < IntMax {
      forall u, v | u in visited && HasEdge(g, u, v)
        ensures v in visited
      {
        assert !Eligible(g, visited, u, v);
      }
      ClosedSetHoldsReachable(g, origin, visited);
      forall v
        ensures v in t.adj <==> v in ReachableSet(g, origin)
      {
        if v in t.adj {
          assert Reachable(g, origin, v);
        }
      }
    }
  }
}
