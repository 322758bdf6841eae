/** The graph store (`Graph` in graph.h:29-464, graph.cpp:76-405): a map from
    label to head vertex plus a graph-wide edge counter, and the operations
    that create, query and remove vertices and edges. */
module Graphs {

  import opened Labels
  import opened Options
  import opened Chains

  /** `INT_MAX` of a 32-bit C++ `int`: the "unreached" distance and the
      starting minimum of the spanning-tree edge search. */
  const IntMax: int := 2147483647

  /** `NumberOfEdges(label)` for an absent label (`EMPTY - COUNT`). */
  const NotFound: int := -1

  datatype Graph = Graph(adj: map<Label, Vertex>, edges: int)

  const Empty: Graph := Graph(map[], 0)

  function DegreeOf(v: Vertex): int { v.degree }

  function LengthOf(v: Vertex): int { |v.chain| }

  function WeightOf(v: Vertex): int { ChainWeight(v.chain) }

  /** Sum of `f` over the vertices named in `ks`. */
  ghost function SumOver(adj: map<Label, Vertex>, ks: set<Label>, f: Vertex -> int): int
    requires ks <= adj.Keys
    decreases ks
  {
    if ks == {} then 0
    else
      var k :| k in ks;
      f(adj[k]) + SumOver(adj, ks - {k}, f)
  }

  lemma {:induction false} SumOverPick(adj: map<Label, Vertex>, ks: set<Label>, f: Vertex -> int, x: Label)
    requires ks <= adj.Keys && x in ks
    ensures SumOver(adj, ks, f) == f(adj[x]) + SumOver(adj, ks - {x}, f)
    decreases ks
  {
    var k :| k in ks && SumOver(adj, ks, f) == f(adj[k]) + SumOver(adj, ks - {k}, f);
    if k != x {
      SumOverPick(adj, ks - {k}, f, x);
      SumOverPick(adj, ks - {x}, f, k);
      assert ks - {k} - {x} == ks - {x} - {k};
    }
  }

  lemma {:induction false} SumOverAgree(adj: map<Label, Vertex>, adj': map<Label, Vertex>, ks: set<Label>, f: Vertex -> int)
    requires ks <= adj.Keys && ks <= adj'.Keys
    requires forall k :: k in ks ==> f(adj[k]) == f(adj'[k])
    ensures SumOver(adj, ks, f) == SumOver(adj', ks, f)
    decreases ks
  {
    if ks != {} {
      var k :| k in ks && SumOver(adj', ks, f) == f(adj'[k]) + SumOver(adj', ks - {k}, f);
      SumOverAgree(adj, adj', ks - {k}, f);
      SumOverPick(adj, ks, f, k);
    }
  }

  /** Replacing one vertex changes a sum by the difference of its terms. */
  lemma SumOverUpdate(adj: map<Label, Vertex>, k: Label, v: Vertex, f: Vertex -> int)
    requires k in adj
    ensures SumOver(adj[k := v], adj.Keys, f) == SumOver(adj, adj.Keys, f) - f(adj[k]) + f(v)
  {
    var adj' := adj[k := v];
    assert adj'.Keys == adj.Keys;
    SumOverPick(adj, adj.Keys, f, k);
    SumOverPick(adj', adj.Keys, f, k);
    SumOverAgree(adj, adj', adj.Keys - {k}, f);
  }

  /** Adding a vertex adds its term to a sum. */
  lemma SumOverAdd(adj: map<Label, Vertex>, k: Label, v: Vertex, f: Vertex -> int)
    requires k !in adj
    ensures SumOver(adj[k := v], adj.Keys + {k}, f) == SumOver(adj, adj.Keys, f) + f(v)
  {
    var adj' := adj[k := v];
    assert adj'.Keys == adj.Keys + {k};
    SumOverPick(adj', adj'.Keys, f, k);
    assert adj'.Keys - {k} == adj.Keys;
    SumOverAgree(adj, adj', adj.Keys, f);
  }

  /** Two per-vertex quantities that agree everywhere have the same sum. */
  lemma {:induction false} SumOverSame(adj: map<Label, Vertex>, ks: set<Label>, f: Vertex -> int, f': Vertex -> int)
    requires ks <= adj.Keys
    requires forall k :: k in ks ==> f(adj[k]) == f'(adj[k])
    ensures SumOver(adj, ks, f) == SumOver(adj, ks, f')
    decreases ks
  {
    if ks != {} {
      var k :| k in ks && SumOver(adj, ks, f) == f(adj[k]) + SumOver(adj, ks - {k}, f);
      SumOverSame(adj, ks - {k}, f, f');
      SumOverPick(adj, ks, f', k);
    }
  }

  /** Sum of the out-degree counters of all head vertices. */
  ghost function TotalDegree(g: Graph): int {
    SumOver(g.adj, g.adj.Keys, DegreeOf)
  }

  /** Sum of the chain lengths of all vertices. */
  ghost function TotalLength(g: Graph): int {
    SumOver(g.adj, g.adj.Keys, LengthOf)
  }

  /** Sum of all edge weights. */
  ghost function TotalWeight(g: Graph): int {
    SumOver(g.adj, g.adj.Keys, WeightOf)
  }

  /** The labels `u` has an edge to. */
  function Succs(g: Graph, u: Label): set<Label>
    requires u in g.adj
  {
    Targets(g.adj[u].chain)
  }

  predicate HasEdge(g: Graph, a: Label, b: Label) {
    a in g.adj && b in Targets(g.adj[a].chain)
  }

  /** The weight of the edge `a -> b`, the first one on the chain. */
  function EdgeWeight(g: Graph, a: Label, b: Label): Weight
    requires HasEdge(g, a, b)
  {
    Adjacent(g.adj[a].chain, b).value
  }

  /** Every edge of the graph as (source, target, weight). */
  ghost function EdgeSet(g: Graph): set<(Label, Label, Weight)> {
    set l, e | l in g.adj && e in g.adj[l].chain :: (l, e.target, e.weight)
  }

  /** The head vertex `v` may sit under label `l` in a map with keys `keys`:
      sorted duplicate-free chain, counter equal to its length, no self-loop
      and no dangling target. */
  ghost predicate Fits(keys: set<Label>, l: Label, v: Vertex) {
    WellFormed(v) && l !in Targets(v.chain) && Targets(v.chain) <= keys
  }

  ghost predicate Shaped(adj: map<Label, Vertex>) {
    forall l :: l in adj ==> Fits(adj.Keys, l, adj[l])
  }

  /** The class invariant (graph.h:23-28 and the counters of graph.cpp:178,
      199, 869, 901): every head vertex fits, and the edge total equals the
      sum of the out-degree counters. */
  ghost predicate Valid(g: Graph) {
    Shaped(g.adj) && g.edges == TotalDegree(g)
  }

  lemma EmptyValid()
    ensures Valid(Empty)
    ensures EdgeSet(Empty) == {}
  {
  }

  /** In a valid graph the edge total is the sum of the chain lengths. */
  lemma EdgesAreChainLengths(g: Graph)
    requires Valid(g)
    ensures g.edges == TotalLength(g)
  {
    SumOverSame(g.adj, g.adj.Keys, DegreeOf, LengthOf);
  }

  /** `NumberOfVertices` (graph.cpp:80-83): how many labels are vertices. */
  function NumberOfVertices(g: Graph): (n: int)
    ensures n >= 0
    ensures n == 0 <==> forall l :: l !in g.adj
  {
    assert |g.adj| == |g.adj.Keys|;
    assert g.adj.Keys != {} ==> exists l :: l in g.adj;
    |g.adj|
  }

  /** `NumberOfEdges()` (graph.cpp:89-92): the counter, which the invariant
      ties to the edges actually stored. */
  function NumberOfEdges(g: Graph): (n: int)
    ensures Valid(g) ==> n == TotalLength(g)
  {
    assert Valid(g) ==> g.edges == TotalLength(g) by {
      if Valid(g) { EdgesAreChainLengths(g); }
    }
    g.edges
  }

  /** `NumberOfEdges(label)` (graph.cpp:99-109). */
  function NumberOfEdgesOf(g: Graph, l: Label): (n: int)
    ensures l !in g.adj ==> n == NotFound
    ensures Valid(g) && l in g.adj ==> n == |g.adj[l].chain| && n >= 0
  {
    if l in g.adj then g.adj[l].degree else NotFound
  }

  /** `HasVertex` (graph.cpp:135-138): the label names a vertex, so the
      graph is not empty and, in a valid graph, the label's edge count is
      defined. */
  predicate HasVertex(g: Graph, l: Label)
    ensures HasVertex(g, l) ==> NumberOfVertices(g) > 0
    ensures Valid(g) ==> (HasVertex(g, l) <==> NumberOfEdgesOf(g, l) >= 0)
  {
    l in g.adj
  }

  lemma ShapedAddFresh(adj: map<Label, Vertex>, l: Label)
    requires Shaped(adj) && l !in adj
    ensures Shaped(adj[l := Fresh])
  {
    var adj' := adj[l := Fresh];
    forall k | k in adj'
      ensures Fits(adj'.Keys, k, adj'[k])
    {
      if k != l {
        assert Fits(adj.Keys, k, adj[k]);
      }
    }
  }

  lemma ShapedUpdate(adj: map<Label, Vertex>, a: Label, v: Vertex)
    requires Shaped(adj) && a in adj && Fits(adj.Keys, a, v)
    ensures Shaped(adj[a := v])
  {
    var adj' := adj[a := v];
    assert adj'.Keys == adj.Keys;
    forall k | k in adj'
      ensures Fits(adj'.Keys, k, adj'[k])
    {
      if k != a {
        assert Fits(adj.Keys, k, adj[k]);
      }
    }
  }

  lemma EdgeSetAddFresh(g: Graph, l: Label)
    requires l !in g.adj
    ensures EdgeSet(Graph(g.adj[l := Fresh], g.edges)) == EdgeSet(g)
  {
    var g' := Graph(g.adj[l := Fresh], g.edges);
    forall x | x in EdgeSet(g')
      ensures x in EdgeSet(g)
    {
      var k, f :| k in g'.adj && f in g'.adj[k].chain && x == (k, f.target, f.weight);
      assert k != l;
    }
    forall x | x in EdgeSet(g)
      ensures x in EdgeSet(g')
    {
      var k, f :| k in g.adj && f in g.adj[k].chain && x == (k, f.target, f.weight);
      assert f in g'.adj[k].chain;
    }
  }

  /** A chain that gained exactly `e` adds exactly its triple to the edge set. */
  lemma EdgeSetGrow(g: Graph, a: Label, v: Vertex, e: Edge, n: int)
    requires a in g.adj
    requires forall x :: x in v.chain <==> x in g.adj[a].chain || x == e
    ensures EdgeSet(Graph(g.adj[a := v], n)) == EdgeSet(g) + {(a, e.target, e.weight)}
  {
    var g' := Graph(g.adj[a := v], n);
    forall x | x in EdgeSet(g')
      ensures x in EdgeSet(g) + {(a, e.target, e.weight)}
    {
      var l, f :| l in g'.adj && f in g'.adj[l].chain && x == (l, f.target, f.weight);
      if l == a && f != e {
        assert f in g.adj[a].chain;
      }
    }
    forall x | x in EdgeSet(g) + {(a, e.target, e.weight)}
      ensures x in EdgeSet(g')
    {
      if x == (a, e.target, e.weight) {
        assert e in g'.adj[a].chain;
      } else {
        var l, f :| l in g.adj && f in g.adj[l].chain && x == (l, f.target, f.weight);
        assert f in g'.adj[l].chain;
      }
    }
  }

  /** A chain that lost exactly `e` removes exactly its triple from the edge set. */
  lemma EdgeSetShrink(g: Graph, a: Label, v: Vertex, e: Edge, n: int)
    requires a in g.adj
    requires forall x :: x in v.chain <==> x in g.adj[a].chain && x != e
    ensures EdgeSet(Graph(g.adj[a := v], n)) == EdgeSet(g) - {(a, e.target, e.weight)}
  {
    var g' := Graph(g.adj[a := v], n);
    forall x | x in EdgeSet(g')
      ensures x in EdgeSet(g) - {(a, e.target, e.weight)}
    {
      var l, f :| l in g'.adj && f in g'.adj[l].chain && x == (l, f.target, f.weight);
      if l == a {
        assert f in g.adj[a].chain;
      }
    }
    forall x | x in EdgeSet(g) - {(a, e.target, e.weight)}
      ensures x in EdgeSet(g')
    {
      var l, f :| l in g.adj && f in g.adj[l].chain && x == (l, f.target, f.weight);
      assert f in g'.adj[l].chain;
    }
  }

  /** An edge `a -> b` is present exactly when some weight makes it a member
      of the edge set. */
  lemma HasEdgeInEdgeSet(g: Graph, a: Label, b: Label)
    ensures HasEdge(g, a, b) <==> exists w :: (a, b, w) in EdgeSet(g)
  {
    if HasEdge(g, a, b) {
      var w := Adjacent(g.adj[a].chain, b).value;
      assert (a, b, w) in EdgeSet(g);
    }
    if exists w :: (a, b, w) in EdgeSet(g) {
      var w :| (a, b, w) in EdgeSet(g);
      var l, e :| l in g.adj && e in g.adj[l].chain && (l, e.target, e.weight) == (a, b, w);
      TargetsMembers(g.adj[l].chain);
    }
  }

  /** `AddVertex` (graph.cpp:116-128): a fresh head vertex unless the label
      is already there. */
  function AddVertex(g: Graph, l: Label): (r: (Graph, bool))
    ensures r.1 <==> !HasVertex(g, l)
    ensures HasVertex(r.0, l)
    ensures r.0.adj.Keys == g.adj.Keys + {l}
    ensures NumberOfVertices(r.0) == NumberOfVertices(g) + (if r.1 then 1 else 0)
    ensures forall k :: k in g.adj ==> r.0.adj[k] == g.adj[k]
    ensures r.1 ==> r.0.adj[l] == Fresh
    ensures r.0.edges == g.edges
  {
    if l !in g.adj then (Graph(g.adj[l := Fresh], g.edges), true) else (g, false)
  }

  /** Adding a vertex keeps the invariant and adds no edge and no weight. */
  lemma AddVertexKeepsValid(g: Graph, l: Label)
    requires Valid(g)
    ensures var g' := AddVertex(g, l).0;
            Valid(g') && EdgeSet(g') == EdgeSet(g) && TotalWeight(g') == TotalWeight(g)
  {
    if l !in g.adj {
      assert g.adj[l := Fresh].Keys == g.adj.Keys + {l};
      ShapedAddFresh(g.adj, l);
      SumOverAdd(g.adj, l, Fresh, DegreeOf);
      SumOverAdd(g.adj, l, Fresh, WeightOf);
      EdgeSetAddFresh(g, l);
    }
  }

  /** `GetEdges` (graph.cpp:145-155): the chain text, `""` for an absent vertex. */
  function GetEdges(g: Graph, l: Label): (s: string)
    ensures l !in g.adj ==> s == ""
    ensures l in g.adj && g.adj[l].chain == [] ==> s == ""
  {
    if l in g.adj then ChainText(g.adj[l].chain) else ""
  }

  /** `GetEdges` lists one entry per edge of the vertex: with comma-free
      labels its text holds one comma fewer than the vertex's edge count. */
  lemma GetEdgesCommas(g: Graph, l: Label)
    requires Valid(g) && l in g.adj && |g.adj[l].chain| > 0
    requires forall i :: 0 <= i < |g.adj[l].chain| ==> NoComma(g.adj[l].chain[i].target)
    ensures Occurrences(GetEdges(g, l), ',') + 1 == NumberOfEdgesOf(g, l)
  {
    ChainTextCommas(g.adj[l].chain);
  }

  /** `GetEdges` lists exactly the vertex's edges, as `target(weight)`
      entries in chain order: with plain target labels its text reads back
      as the chain, and as no edges for an absent vertex. */
  lemma GetEdgesRoundTrip(g: Graph, l: Label)
    requires l in g.adj ==> forall i :: 0 <= i < |g.adj[l].chain| ==> Plain(g.adj[l].chain[i].target)
    ensures ParseChainText(GetEdges(g, l)) == Some(if l in g.adj then g.adj[l].chain else [])
  {
    if l in g.adj {
      ChainTextRoundTrip(g.adj[l].chain);
    }
  }

  /** The part of `Connect` after both endpoints exist: insert into the
      source's chain and count the edge if the insert succeeded. */
  function InsertEdge(g: Graph, a: Label, b: Label, w: Weight): (r: (Graph, bool))
    requires a in g.adj
    ensures r.0.adj.Keys == g.adj.Keys
    ensures r.0.edges == g.edges + (if r.1 then 1 else 0)
    ensures forall k :: k in g.adj && k != a ==> r.0.adj[k] == g.adj[k]
    ensures !r.1 ==> r.0 == g
  {
    var c := Chains.Connect(g.adj[a], b, w);
    if c.1 then (Graph(g.adj[a := c.0], g.edges + 1), true) else (g, false)
  }

  /** Inserting `a -> b` between two distinct existing vertices succeeds
      exactly when the edge is new, keeps the invariant, and adds exactly
      that edge and its weight. */
  lemma InsertEdgeKeepsValid(g: Graph, a: Label, b: Label, w: Weight)
    requires Valid(g) && a in g.adj && b in g.adj && a != b
    ensures var r := InsertEdge(g, a, b, w);
            && (r.1 <==> !HasEdge(g, a, b))
            && Valid(r.0)
            && EdgeSet(r.0) == (if r.1 then EdgeSet(g) + {(a, b, w)} else EdgeSet(g))
            && TotalWeight(r.0) == TotalWeight(g) + (if r.1 then w else 0)
  {
    var v := g.adj[a];
    assert Fits(g.adj.Keys, a, v);
    var c := Chains.Connect(v, b, w);
    if c.1 {
      assert g.adj[a := c.0].Keys == g.adj.Keys;
      ShapedUpdate(g.adj, a, c.0);
      SumOverUpdate(g.adj, a, c.0, DegreeOf);
      SumOverUpdate(g.adj, a, c.0, WeightOf);
      EdgeSetGrow(g, a, c.0, Edge(b, w), g.edges + 1);
    }
  }

  /** Creating both endpoints only adds the missing ones. */
  lemma BothEndpoints(g: Graph, a: Label, b: Label)
    ensures var g2 := AddVertex(AddVertex(g, a).0, b).0;
            && g2.adj.Keys == g.adj.Keys + {a, b}
            && g2.edges == g.edges
            && (forall k :: k in g.adj ==> g2.adj[k] == g.adj[k])
  {
  }

  /** Creating both endpoints does not create the edge between them. */
  lemma BothEndpointsNoEdge(g: Graph, a: Label, b: Label)
    ensures HasEdge(AddVertex(AddVertex(g, a).0, b).0, a, b) <==> HasEdge(g, a, b)
  {
    var g1 := AddVertex(g, a).0;
    var g2 := AddVertex(g1, b).0;
    assert g2.adj[a] == g1.adj[a];
    if a !in g.adj {
      assert g1.adj[a] == Fresh;
    }
  }

  /** `Connect` (graph.cpp:166-182): refuses self-loops without side effects;
      otherwise creates both endpoints and inserts into the source chain. */
  function Connect(g: Graph, a: Label, b: Label, w: Weight): (r: (Graph, bool))
    ensures a == b ==> r == (g, false)
    ensures a != b ==> r.0.adj.Keys == g.adj.Keys + {a, b}
    ensures r.0.edges == g.edges + (if r.1 then 1 else 0)
    ensures forall k :: k in g.adj && k != a ==> r.0.adj[k] == g.adj[k]
  {
    if a != b then
      BothEndpoints(g, a, b);
      InsertEdge(AddVertex(AddVertex(g, a).0, b).0, a, b, w)
    else
      (g, false)
  }

  /** `Connect` keeps the invariant; it succeeds exactly when the edge is new
      and not a self-loop, and then adds exactly that edge and its weight. */
  lemma ConnectKeepsValid(g: Graph, a: Label, b: Label, w: Weight)
    requires Valid(g)
    ensures var r := Connect(g, a, b, w);
            && Valid(r.0)
            && (r.1 <==> a != b && !HasEdge(g, a, b))
            && EdgeSet(r.0) == (if r.1 then EdgeSet(g) + {(a, b, w)} else EdgeSet(g))
            && TotalWeight(r.0) == TotalWeight(g) + (if r.1 then w else 0)
  {
    if a != b {
      var g1 := AddVertex(g, a).0;
      var g2 := AddVertex(g1, b).0;
      AddVertexKeepsValid(g, a);
      AddVertexKeepsValid(g1, b);
      BothEndpoints(g, a, b);
      BothEndpointsNoEdge(g, a, b);
      InsertEdgeKeepsValid(g2, a, b, w);
    }
  }

  /** A new vertex brings no edge. */
  lemma AddVertexHasEdge(g: Graph, l: Label, x: Label, y: Label)
    ensures HasEdge(AddVertex(g, l).0, x, y) <==> HasEdge(g, x, y)
  {
    if x !in g.adj && x == l {
      assert AddVertex(g, l).0.adj[x] == Fresh;
    }
  }

  /** Inserting into the source's chain adds `a -> b` and nothing else. */
  lemma InsertEdgeHasEdge(g: Graph, a: Label, b: Label, w: Weight, x: Label, y: Label)
    requires a in g.adj
    ensures HasEdge(InsertEdge(g, a, b, w).0, x, y) <==> HasEdge(g, x, y) || (x == a && y == b)
  {
  }

  /** After `Connect(a, b)` the edges are the old ones and `a -> b`, unless
      that is a self-loop. */
  lemma ConnectHasEdge(g: Graph, a: Label, b: Label, w: Weight, x: Label, y: Label)
    ensures HasEdge(Connect(g, a, b, w).0, x, y) <==> HasEdge(g, x, y) || (a != b && x == a && y == b)
  {
    if a != b {
      var g1 := AddVertex(g, a).0;
      AddVertexHasEdge(g, a, x, y);
      AddVertexHasEdge(g1, b, x, y);
      InsertEdgeHasEdge(AddVertex(g1, b).0, a, b, w, x, y);
    }
  }

  /** Unlinking the edge `a -> b` keeps the invariant and removes exactly that
      edge and its weight. */
  lemma UnlinkKeepsValid(g: Graph, a: Label, b: Label)
    requires Valid(g) && HasEdge(g, a, b)
    ensures var c := Chains.Disconnect(g.adj[a], b);
            var g' := Graph(g.adj[a := c.0], g.edges - 1);
            && Valid(g')
            && EdgeSet(g') == EdgeSet(g) - {(a, b, EdgeWeight(g, a, b))}
            && TotalWeight(g') == TotalWeight(g) - EdgeWeight(g, a, b)
  {
    var v := g.adj[a];
    var c := Chains.Disconnect(v, b);
    assert Fits(g.adj.Keys, a, v);
    assert g.adj[a := c.0].Keys == g.adj.Keys;
    ShapedUpdate(g.adj, a, c.0);
    SumOverUpdate(g.adj, a, c.0, DegreeOf);
    SumOverUpdate(g.adj, a, c.0, WeightOf);
    EdgeSetShrink(g, a, c.0, Edge(b, EdgeWeight(g, a, b)), g.edges - 1);
  }

  /** `Disconnect` (graph.cpp:190-203): unlinks `a -> b` when both vertices
      exist, differ, and the edge is there; otherwise nothing changes. */
  function Disconnect(g: Graph, a: Label, b: Label): (r: (Graph, bool))
    ensures r.1 <==> a != b && a in g.adj && b in g.adj && b in Targets(g.adj[a].chain)
    ensures !r.1 ==> r.0 == g
    ensures r.1 ==> r.0.adj.Keys == g.adj.Keys && r.0.edges == g.edges - 1
    ensures forall k :: k in g.adj && k != a ==> r.0.adj[k] == g.adj[k]
  {
    if a != b && a in g.adj && b in g.adj then
      var c := Chains.Disconnect(g.adj[a], b);
      if c.1 then (Graph(g.adj[a := c.0], g.edges - 1), true) else (g, false)
    else
      (g, false)
  }

  /** `Disconnect` keeps the invariant and, when it succeeds, removes exactly
      the edge `a -> b` and its weight. */
  lemma DisconnectKeepsValid(g: Graph, a: Label, b: Label)
    requires Valid(g)
    ensures var r := Disconnect(g, a, b);
            && Valid(r.0)
            && (r.1 ==> EdgeSet(r.0) == EdgeSet(g) - {(a, b, EdgeWeight(g, a, b))})
            && (r.1 ==> TotalWeight(r.0) == TotalWeight(g) - EdgeWeight(g, a, b))
  {
    if Disconnect(g, a, b).1 {
      UnlinkKeepsValid(g, a, b);
    }
  }

  /** The weights of one chain added onto `sum` (the inner loop of
      `SumOfEdges`). */
  method AddChainWeights(sum: int, chain: seq<Edge>) returns (s: int)
    ensures s == sum + ChainWeight(chain)
  {
    s := sum;
    var j := 0;
    while j < |chain|
      invariant 0 <= j <= |chain|
      invariant s == sum + ChainWeight(chain[..j])
    {
      s := s + chain[j].weight;
      ChainWeightAppend(chain[..j], [chain[j]]);
      assert chain[..j + 1] == chain[..j] + [chain[j]];
      j := j + 1;
    }
    assert chain[..j] == chain;
  }

  /** The labels of a sequence, as a set. */
  ghost function LabelSet(s: seq<Label>): set<Label> {
    set k | k in s
  }

  /** Sum of the chain weights of the vertices named in `keys`, in order. */
  ghost function WeightAlong(adj: map<Label, Vertex>, keys: seq<Label>): int
    requires forall k :: k in keys ==> k in adj
  {
    if |keys| == 0 then 0
    else WeightAlong(adj, keys[..|keys| - 1]) + WeightOf(adj[keys[|keys| - 1]])
  }

  /** Summing along a duplicate-free sequence is summing over its set. */
  lemma {:induction false} WeightAlongIsSum(adj: map<Label, Vertex>, keys: seq<Label>)
    requires forall k :: k in keys ==> k in adj
    requires Distinct(keys)
    ensures LabelSet(keys) <= adj.Keys
    ensures WeightAlong(adj, keys) == SumOver(adj, LabelSet(keys), WeightOf)
  {
    if |keys| > 0 {
      var n := |keys| - 1;
      var init := keys[..n];
      assert Distinct(init);
      WeightAlongIsSum(adj, init);
      assert keys == init + [keys[n]];
      assert keys[n] !in LabelSet(init);
      assert LabelSet(keys) == LabelSet(init) + {keys[n]};
      SumOverPick(adj, LabelSet(keys), WeightOf, keys[n]);
      assert LabelSet(keys) - {keys[n]} == LabelSet(init);
    }
  }

  lemma WeightAlongStep(adj: map<Label, Vertex>, keys: seq<Label>, i: int)
    requires forall k :: k in keys ==> k in adj
    requires 0 <= i < |keys|
    ensures WeightAlong(adj, keys[..i + 1]) == WeightAlong(adj, keys[..i]) + WeightOf(adj[keys[i]])
  {
    assert keys[..i + 1][..i] == keys[..i];
  }

  /** Summing in map order gives the total weight. */
  lemma MapOrderWeightIsTotal(g: Graph)
    ensures WeightAlong(g.adj, SortedLabels(g.adj.Keys)) == TotalWeight(g)
  {
    var keys := SortedLabels(g.adj.Keys);
    WeightAlongIsSum(g.adj, keys);
    assert LabelSet(keys) == g.adj.Keys;
  }

  /** `SumOfEdges` (graph.cpp:338-355): walks every chain in map order. */
  method SumOfEdges(g: Graph) returns (sum: int)
    ensures sum == TotalWeight(g)
  {
    var keys := SortedLabels(g.adj.Keys);
    MapOrderWeightIsTotal(g);
    sum := 0;
    var i := 0;
    while i < |keys|
      invariant 0 <= i <= |keys|
      invariant forall k :: k in keys ==> k in g.adj
      invariant sum == WeightAlong(g.adj, keys[..i])
    {
      WeightAlongStep(g.adj, keys, i);
      sum := AddChainWeights(sum, g.adj[keys[i]].chain);
      i := i + 1;
    }
    assert keys[..i] == keys;
  }
}
