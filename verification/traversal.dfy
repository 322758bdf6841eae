/** The depth-first and breadth-first traversals (`DFS`, `BFS` and their
    helpers, graph.cpp:235-267 and 412-522).

    The C++ class marks vertices through a `visited` flag in each head node
    and clears the flags afterwards; here the traversal carries the set of
    visited labels, so there is nothing to clear. The `Visit` callback is
    modelled by the sequence of labels it would be called with. */
module Traversals {

  import opened Labels
  import opened Options
  import opened Chains
  import opened Graphs
  import opened Paths

  /** The first target along `c` that is not visited (the walk of
      `nextVertex`, graph.cpp:462-481). */
  function FirstUnvisited(c: seq<Edge>, visited: set<Label>): (r: Option<Label>)
    ensures r.None? <==> Targets(c) <= visited
    ensures r.Some? ==> r.value in Targets(c) && r.value !in visited
    ensures r.Some? ==> exists k :: 0 <= k < |c| && c[k].target == r.value &&
                                    forall j :: 0 <= j < k ==> c[j].target in visited
  {
    if |c| == 0 then None
    else if c[0].target !in visited then Some(c[0].target)
    else
      var r := FirstUnvisited(c[1..], visited);
      assert r.Some? ==> exists k :: 0 <= k < |c| && c[k].target == r.value &&
                                     forall j :: 0 <= j < k ==> c[j].target in visited by {
        if r.Some? {
          var k :| 0 <= k < |c| - 1 && c[1..][k].target == r.value &&
                   forall j :: 0 <= j < k ==> c[1..][j].target in visited;
          assert forall j :: 0 < j < k + 1 ==> c[j].target == c[1..][j - 1].target;
        }
      }
      r
  }

  /** `v` is a vertex none of whose successors is left unvisited. */
  ghost predicate Finished(g: Graph, v: Label, visited: set<Label>) {
    v in g.adj && forall w :: HasEdge(g, v, w) ==> w in visited
  }

  /** `nextLabel` (graph.cpp:436-453): the top of the stack itself if it is
      not visited yet, else its first unvisited successor in chain order, else
      the `NoLabel` sentinel; whatever is found is marked visited. */
  function NextLabel(g: Graph, visited: set<Label>, top: Label): (r: (Label, set<Label>))
    requires top in g.adj
    ensures top !in visited ==> r == (top, visited + {top})
    ensures top in visited ==> (r.1 == visited <==> Finished(g, top, visited))
    ensures top in visited && r.1 == visited ==> r.0 == NoLabel
    ensures r.1 != visited ==> r.0 !in visited && r.1 == visited + {r.0}
    ensures top in visited && r.1 != visited ==>
              HasEdge(g, top, r.0) && FirstUnvisited(g.adj[top].chain, visited) == Some(r.0)
  {
    if top !in visited then (top, visited + {top})
    else
      match FirstUnvisited(g.adj[top].chain, visited)
      case Some(t) => (t, visited + {t})
      case None => (NoLabel, visited)
  }

  /** In `order`, vertex `i` was found from vertex `j`: it is the first
      successor of `j` in chain order not visited before it, and every vertex
      found between `j` and `i` had no unvisited successor left. */
  ghost predicate DfsParent(g: Graph, order: seq<Label>, i: int, j: int) {
    && 0 <= j < i < |order|
    && order[j] in g.adj
    && FirstUnvisited(g.adj[order[j]].chain, LabelSet(order[..i])) == Some(order[i])
    && forall k :: j < k < i ==> Finished(g, order[k], LabelSet(order[..i]))
  }

  ghost predicate HasDfsParent(g: Graph, order: seq<Label>, i: int) {
    exists j :: DfsParent(g, order, i, j)
  }

  /** A depth-first order from `origin`: it starts there, repeats nothing,
      and each later vertex is the next unvisited successor of the deepest
      vertex that still has one. */
  ghost predicate DfsOrder(g: Graph, origin: Label, order: seq<Label>) {
    && |order| > 0
    && order[0] == origin
    && Distinct(order)
    && forall i :: 0 < i < |order| ==> HasDfsParent(g, order, i)
  }

  /** What holds of the depth-first loop whatever the labels are. */
  ghost predicate DfsBasic(g: Graph, origin: Label, stack: seq<Label>, visited: set<Label>, order: seq<Label>) {
    && origin in g.adj
    && visited <= g.adj.Keys
    && (forall m :: 0 <= m < |stack| ==> stack[m] in g.adj)
    && (|stack| > 0 ==> stack[0] == origin)
    && (forall m :: 0 < m < |stack| ==> stack[m] in visited)
    && (forall v :: v in order ==> v in visited && v != NoLabel)
    && Distinct(order)
    && (forall v :: v in visited ==> Reachable(g, origin, v))
  }

  /** The stack discipline, which holds when no vertex is named like the
      sentinel: the stack above the origin lists the unfinished vertices in
      the order they were found (their positions in `order` are `idx`). */
  ghost predicate DfsStack(g: Graph, origin: Label, stack: seq<Label>, visited: set<Label>,
                           order: seq<Label>, idx: seq<int>) {
    && LabelSet(order) == visited
    && (order == [] ==> stack == [origin])
    && (order != [] ==> order[0] == origin)
    && (|stack| == |idx| + 1 || (stack == [] && idx == []))
    && (forall m :: 0 <= m < |idx| ==> 0 <= idx[m] < |order| && stack[m + 1] == order[idx[m]])
    && (forall m, m' :: 0 <= m < m' < |idx| ==> idx[m] < idx[m'])
    && (forall k :: 0 <= k < |order| && k !in idx ==> Finished(g, order[k], visited))
    && (forall i :: 0 < i < |order| ==> HasDfsParent(g, order, i))
  }

  /** The origin at the bottom of the stack, everything above it visited. */
  ghost predicate StackShape(origin: Label, stack: seq<Label>, visited: set<Label>) {
    && |stack| > 0
    && stack[0] == origin
    && (forall m :: 0 < m < |stack| ==> stack[m] in visited)
  }

  lemma DfsParentExtend(g: Graph, order: seq<Label>, x: Label, i: int, j: int)
    requires DfsParent(g, order, i, j)
    ensures DfsParent(g, order + [x], i, j)
  {
    var o := order + [x];
    assert o[..i] == order[..i];
    assert forall k :: 0 <= k < |order| ==> o[k] == order[k];
  }

  lemma LabelSetAppend(s: seq<Label>, x: Label)
    ensures LabelSet(s + [x]) == LabelSet(s) + {x}
  {
  }

  lemma FinishedGrows(g: Graph, v: Label, visited: set<Label>, more: set<Label>)
    requires Finished(g, v, visited) && visited <= more
    ensures Finished(g, v, more)
  {
  }

  /** Pushing the vertex `NextLabel` found keeps the basic invariant. */
  lemma DfsBasicPush(g: Graph, origin: Label, stack: seq<Label>, visited: set<Label>, order: seq<Label>)
    requires Closed(g) && DfsBasic(g, origin, stack, visited, order) && |stack| > 0
    requires NextLabel(g, visited, stack[|stack| - 1]).0 != NoLabel
    ensures var r := NextLabel(g, visited, stack[|stack| - 1]);
            DfsBasic(g, origin, stack + [r.0], r.1, order + [r.0])
  {
    var top := stack[|stack| - 1];
    var r := NextLabel(g, visited, top);
    var stack', order' := stack + [r.0], order + [r.0];
    if top !in visited {
      assert |stack| == 1 || top in visited;
      ReachSelf(g, origin);
    } else {
      assert Reachable(g, origin, top);
      ReachStep(g, origin, top, r.0);
    }
    assert forall m :: 0 <= m < |stack| ==> stack'[m] == stack[m];
    assert forall k :: 0 <= k < |order| ==> order'[k] == order[k];
  }

  /** Popping keeps the basic invariant, whatever `NextLabel` marked. */
  lemma DfsBasicPop(g: Graph, origin: Label, stack: seq<Label>, visited: set<Label>, order: seq<Label>)
    requires Closed(g) && DfsBasic(g, origin, stack, visited, order) && |stack| > 0
    requires NextLabel(g, visited, stack[|stack| - 1]).0 == NoLabel
    ensures var r := NextLabel(g, visited, stack[|stack| - 1]);
            DfsBasic(g, origin, stack[..|stack| - 1], r.1, order)
  {
    var top := stack[|stack| - 1];
    var r := NextLabel(g, visited, top);
    if r.1 != visited {
      if top !in visited {
        ReachSelf(g, origin);
      } else {
        assert Reachable(g, origin, top);
        ReachStep(g, origin, top, r.0);
      }
    }
  }

  lemma LastIsLargest(idx: seq<int>)
    requires |idx| > 0
    requires forall m, m' :: 0 <= m < m' < |idx| ==> idx[m] < idx[m']
    ensures forall k :: k in idx ==> k <= idx[|idx| - 1]
  {
    forall k | k in idx
      ensures k <= idx[|idx| - 1]
    {
      var m :| 0 <= m < |idx| && idx[m] == k;
    }
  }

  lemma DfsParentsExtend(g: Graph, order: seq<Label>, x: Label)
    requires forall i :: 0 < i < |order| ==> HasDfsParent(g, order, i)
    ensures forall i :: 0 < i < |order| ==> HasDfsParent(g, order + [x], i)
  {
    forall i | 0 < i < |order|
      ensures HasDfsParent(g, order + [x], i)
    {
      assert HasDfsParent(g, order, i);
      var j :| DfsParent(g, order, i, j);
      DfsParentExtend(g, order, x, i, j);
    }
  }

  lemma DfsParentsPush(g: Graph, order: seq<Label>, x: Label, j: int)
    requires forall i :: 0 < i < |order| ==> HasDfsParent(g, order, i)
    requires DfsParent(g, order + [x], |order|, j)
    ensures forall i :: 0 < i < |order| + 1 ==> HasDfsParent(g, order + [x], i)
  {
    DfsParentsExtend(g, order, x);
    assert HasDfsParent(g, order + [x], |order|);
  }

  /** A successor found from a visited top was found from the deepest
      unfinished vertex, which is the top. */
  lemma DfsNewParent(g: Graph, origin: Label, stack: seq<Label>, visited: set<Label>,
                     order: seq<Label>, idx: seq<int>)
    requires Closed(g) && NoLabel !in g.adj
    requires StackShape(origin, stack, visited)
    requires DfsStack(g, origin, stack, visited, order, idx)
    requires stack[|stack| - 1] in visited && stack[|stack| - 1] in g.adj
    requires NextLabel(g, visited, stack[|stack| - 1]).0 != NoLabel
    ensures |idx| > 0
    ensures DfsParent(g, order + [NextLabel(g, visited, stack[|stack| - 1]).0], |order|, idx[|idx| - 1])
  {
    var top := stack[|stack| - 1];
    var r := NextLabel(g, visited, top);
    var order' := order + [r.0];
    var i := |order|;
    assert order != [];
    assert 0 in idx || Finished(g, order[0], visited);
    var j := idx[|idx| - 1];
    assert order[j] == top;
    assert order'[..i] == order;
    LastIsLargest(idx);
    forall k | j < k < i
      ensures Finished(g, order'[k], LabelSet(order'[..i]))
    {
      assert k !in idx;
      assert order'[k] == order[k];
    }
  }

  /** Pushing keeps the positions of the stack entries. */
  lemma DfsPushPositions(stack: seq<Label>, order: seq<Label>, idx: seq<int>, x: Label)
    requires |stack| == |idx| + 1
    requires forall m :: 0 <= m < |idx| ==> 0 <= idx[m] < |order| && stack[m + 1] == order[idx[m]]
    requires forall m, m' :: 0 <= m < m' < |idx| ==> idx[m] < idx[m']
    ensures var stack', order', idx' := stack + [x], order + [x], idx + [|order|];
            && (forall m :: 0 <= m < |idx'| ==> 0 <= idx'[m] < |order'| && stack'[m + 1] == order'[idx'[m]])
            && (forall m, m' :: 0 <= m < m' < |idx'| ==> idx'[m] < idx'[m'])
  {
    var stack', order', idx' := stack + [x], order + [x], idx + [|order|];
    forall m | 0 <= m < |idx'|
      ensures 0 <= idx'[m] < |order'| && stack'[m + 1] == order'[idx'[m]]
    {
      if m < |idx| {
        assert stack'[m + 1] == stack[m + 1];
        assert order'[idx[m]] == order[idx[m]];
      }
    }
  }

  /** Pushing leaves every vertex off the stack finished. */
  lemma DfsPushFinished(g: Graph, order: seq<Label>, idx: seq<int>, visited: set<Label>, x: Label)
    requires forall k :: 0 <= k < |order| && k !in idx ==> Finished(g, order[k], visited)
    ensures var order', idx' := order + [x], idx + [|order|];
            forall k :: 0 <= k < |order'| && k !in idx' ==> Finished(g, order'[k], visited + {x})
  {
    var order', idx' := order + [x], idx + [|order|];
    forall k | 0 <= k < |order'| && k !in idx'
      ensures Finished(g, order'[k], visited + {x})
    {
      assert order'[k] == order[k];
      FinishedGrows(g, order[k], visited, visited + {x});
    }
  }

  /** Pushing keeps the stack discipline. */
  lemma DfsStackPush(g: Graph, origin: Label, stack: seq<Label>, visited: set<Label>,
                     order: seq<Label>, idx: seq<int>)
    requires Closed(g) && NoLabel !in g.adj
    requires StackShape(origin, stack, visited) && stack[|stack| - 1] in g.adj
    requires DfsStack(g, origin, stack, visited, order, idx)
    requires NextLabel(g, visited, stack[|stack| - 1]).0 != NoLabel
    ensures var r := NextLabel(g, visited, stack[|stack| - 1]);
            DfsStack(g, origin, stack + [r.0], r.1, order + [r.0], idx + [|order|])
  {
    var top := stack[|stack| - 1];
    var r := NextLabel(g, visited, top);
    assert r.1 == visited + {r.0};
    LabelSetAppend(order, r.0);
    DfsPushPositions(stack, order, idx, r.0);
    DfsPushFinished(g, order, idx, visited, r.0);
    if top in visited {
      DfsNewParent(g, origin, stack, visited, order, idx);
      DfsParentsPush(g, order, r.0, idx[|idx| - 1]);
    } else {
      assert order == [];
      assert order + [r.0] == [r.0];
    }
  }

  /** Popping keeps the positions of the remaining stack entries. */
  lemma DfsPopPositions(stack: seq<Label>, order: seq<Label>, idx: seq<int>)
    requires |stack| == |idx| + 1 || (stack == [] && idx == [])
    requires |stack| > 0
    requires forall m :: 0 <= m < |idx| ==> 0 <= idx[m] < |order| && stack[m + 1] == order[idx[m]]
    requires forall m, m' :: 0 <= m < m' < |idx| ==> idx[m] < idx[m']
    ensures var stack', idx' := stack[..|stack| - 1], if |idx| > 0 then idx[..|idx| - 1] else [];
            && (|stack'| == |idx'| + 1 || (stack' == [] && idx' == []))
            && (forall m :: 0 <= m < |idx'| ==> 0 <= idx'[m] < |order| && stack'[m + 1] == order[idx'[m]])
            && (forall m, m' :: 0 <= m < m' < |idx'| ==> idx'[m] < idx'[m'])
  {
  }

  /** Popping a finished top leaves every vertex off the stack finished. */
  lemma DfsPopFinished(g: Graph, stack: seq<Label>, visited: set<Label>, order: seq<Label>, idx: seq<int>)
    requires |stack| == |idx| + 1 || (stack == [] && idx == [])
    requires |stack| > 0
    requires forall m :: 0 <= m < |idx| ==> 0 <= idx[m] < |order| && stack[m + 1] == order[idx[m]]
    requires forall k :: 0 <= k < |order| && k !in idx ==> Finished(g, order[k], visited)
    requires Finished(g, stack[|stack| - 1], visited)
    ensures var idx' := if |idx| > 0 then idx[..|idx| - 1] else [];
            forall k :: 0 <= k < |order| && k !in idx' ==> Finished(g, order[k], visited)
  {
    var idx' := if |idx| > 0 then idx[..|idx| - 1] else [];
    forall k | 0 <= k < |order| && k !in idx'
      ensures Finished(g, order[k], visited)
    {
      if k in idx {
        var m :| 0 <= m < |idx| && idx[m] == k;
        assert m == |idx| - 1;
      }
    }
  }

  /** Popping keeps the stack discipline: the popped vertex is finished. */
  lemma DfsStackPop(g: Graph, origin: Label, stack: seq<Label>, visited: set<Label>,
                    order: seq<Label>, idx: seq<int>)
    requires |stack| > 0
    requires DfsStack(g, origin, stack, visited, order, idx)
    requires stack[|stack| - 1] in visited && Finished(g, stack[|stack| - 1], visited)
    ensures DfsStack(g, origin, stack[..|stack| - 1], visited, order,
                     if |idx| > 0 then idx[..|idx| - 1] else [])
  {
    DfsPopPositions(stack, order, idx);
    DfsPopFinished(g, stack, visited, order, idx);
    assert order != [];
  }

  /** At the end of a disciplined run every vertex found is finished, so the
      vertices found are closed under successors. */
  lemma DfsDone(g: Graph, origin: Label, visited: set<Label>, order: seq<Label>)
    requires DfsBasic(g, origin, [], visited, order)
    requires DfsStack(g, origin, [], visited, order, [])
    ensures DfsOrder(g, origin, order)
    ensures forall v :: Reachable(g, origin, v) ==> v in order
  {
    assert order != [];
    forall u, v | u in visited && HasEdge(g, u, v)
      ensures v in visited
    {
      var k :| 0 <= k < |order| && order[k] == u;
      assert Finished(g, order[k], visited);
    }
    ClosedSetHoldsReachable(g, origin, visited);
  }

  /** One round of the depth-first loop keeps its invariant and makes
      progress: it marks a vertex or pops the stack. */
  lemma DfsKeeps(g: Graph, origin: Label, stack: seq<Label>, visited: set<Label>,
                 order: seq<Label>, idx: seq<int>)
    requires Closed(g) && DfsBasic(g, origin, stack, visited, order) && |stack| > 0
    requires NoLabel !in g.adj ==> DfsStack(g, origin, stack, visited, order, idx)
    ensures var r := NextLabel(g, visited, stack[|stack| - 1]);
            && (r.1 != visited ==> |g.adj.Keys - r.1| < |g.adj.Keys - visited|)
            && (r.0 != NoLabel ==>
                  && DfsBasic(g, origin, stack + [r.0], r.1, order + [r.0])
                  && (NoLabel !in g.adj ==> DfsStack(g, origin, stack + [r.0], r.1, order + [r.0], idx + [|order|])))
            && (r.0 == NoLabel ==>
                  && DfsBasic(g, origin, stack[..|stack| - 1], r.1, order)
                  && (NoLabel !in g.adj ==>
                        DfsStack(g, origin, stack[..|stack| - 1], r.1, order, if |idx| > 0 then idx[..|idx| - 1] else [])))
  {
    var r := NextLabel(g, visited, stack[|stack| - 1]);
    if r.1 != visited {
      MarkShrinks(g.adj.Keys, visited, r.0);
    }
    if r.0 != NoLabel {
      DfsBasicPush(g, origin, stack, visited, order);
      if NoLabel !in g.adj {
        DfsStackPush(g, origin, stack, visited, order, idx);
      }
    } else {
      DfsBasicPop(g, origin, stack, visited, order);
      if NoLabel !in g.adj {
        assert stack[|stack| - 1] in visited;
        DfsStackPop(g, origin, stack, visited, order, idx);
      }
    }
  }

  /** `DFS` (graph.cpp:235-246) with `dfs` (graph.cpp:412-429): the labels
      passed to the callback, in order. Nothing is visited when the origin
      is not a vertex. Everything visited is reachable and visited once;
      when no vertex is named like the sentinel, the visit is a depth-first
      order from the origin that reaches every reachable vertex. */
  method Dfs(g: Graph, origin: Label) returns (order: seq<Label>)
    requires Closed(g)
    ensures origin !in g.adj ==> order == []
    ensures Distinct(order)
    ensures forall v :: v in order ==> Reachable(g, origin, v)
    ensures origin in g.adj && NoLabel !in g.adj ==> DfsOrder(g, origin, order)
    ensures NoLabel !in g.adj ==> forall v :: Reachable(g, origin, v) <==> v in order
  {
    order := [];
    if origin !in g.adj {
      return;
    }
    var stack := [origin];
    var visited: set<Label> := {};
    ghost var idx: seq<int> := [];
    while |stack| > 0
      invariant DfsBasic(g, origin, stack, visited, order)
      invariant NoLabel !in g.adj ==> DfsStack(g, origin, stack, visited, order, idx)
      decreases |g.adj.Keys - visited|, |stack|
    {
      var top := stack[|stack| - 1];
      var r := NextLabel(g, visited, top);
      DfsKeeps(g, origin, stack, visited, order, idx);
      if r.0 != NoLabel {
        idx := idx + [|order|];
        order := order + [r.0];
        stack := stack + [r.0];
      } else {
        idx := if |idx| > 0 then idx[..|idx| - 1] else [];
        stack := stack[..|stack| - 1];
      }
      visited := r.1;
    }
    if NoLabel !in g.adj {
      DfsDone(g, origin, visited, order);
    }
  }

  /** Target `x` comes before target `y` along the chain `c`. */
  ghost predicate ChainBefore(c: seq<Edge>, x: Label, y: Label) {
    exists p, q :: 0 <= p < q < |c| && c[p].target == x && c[q].target == y
  }

  lemma ChainBeforeCons(c: seq<Edge>, x: Label, y: Label)
    requires |c| > 0
    requires (x == c[0].target && y in Targets(c[1..])) || ChainBefore(c[1..], x, y)
    ensures ChainBefore(c, x, y)
  {
    if x == c[0].target && y in Targets(c[1..]) {
      TargetsIndex(c[1..], y);
      var q :| 0 <= q < |c| - 1 && c[1..][q].target == y;
      assert c[q + 1].target == y;
    } else {
      var p, q :| 0 <= p < q < |c| - 1 && c[1..][p].target == x && c[1..][q].target == y;
      assert c[p + 1].target == x && c[q + 1].target == y;
    }
  }

  /** `addUnvisited` (graph.cpp:505-522): the targets along `c` not yet
      visited, in chain order, each marked as it is queued. */
  function AddUnvisited(c: seq<Edge>, visited: set<Label>): (r: (seq<Label>, set<Label>))
    ensures r.1 == visited + LabelSet(r.0)
    ensures forall t :: t in r.0 <==> t in Targets(c) && t !in visited
    ensures Distinct(r.0)
  {
    if |c| == 0 then ([], visited)
    else
      var t := c[0].target;
      if t !in visited then
        var rest := AddUnvisited(c[1..], visited + {t});
        var q := [t] + rest.0;
        assert forall a :: 0 < a < |q| ==> q[a] == rest.0[a - 1];
        (q, rest.1)
      else
        AddUnvisited(c[1..], visited)
  }

  /** The labels of `s` appear along the chain `c` in the same order. */
  ghost predicate InChainOrder(c: seq<Edge>, s: seq<Label>) {
    forall a, b :: 0 <= a < b < |s| ==> ChainBefore(c, s[a], s[b])
  }

  /** `addUnvisited` queues the new targets in the order of the chain. */
  lemma {:induction false} AddUnvisitedInChainOrder(c: seq<Edge>, visited: set<Label>)
    ensures InChainOrder(c, AddUnvisited(c, visited).0)
  {
    if |c| > 0 {
      var t := c[0].target;
      var r := AddUnvisited(c, visited).0;
      if t !in visited {
        var rr := AddUnvisited(c[1..], visited + {t});
        var rest := rr.0;
        AddUnvisitedInChainOrder(c[1..], visited + {t});
        assert r == [t] + rest;
        forall a, b | 0 <= a < b < |r|
          ensures ChainBefore(c, r[a], r[b])
        {
          assert r[b] == rest[b - 1];
          if a == 0 {
            assert r[b] in rr.0;
            assert r[b] in Targets(c[1..]);
          } else {
            assert r[a] == rest[a - 1];
            assert InChainOrder(c[1..], rest);
            assert ChainBefore(c[1..], rest[a - 1], rest[b - 1]);
          }
          ChainBeforeCons(c, r[a], r[b]);
        }
      } else {
        AddUnvisitedInChainOrder(c[1..], visited);
        assert r == AddUnvisited(c[1..], visited).0;
        assert InChainOrder(c[1..], r);
        forall a, b | 0 <= a < b < |r|
          ensures ChainBefore(c, r[a], r[b])
        {
          assert ChainBefore(c[1..], r[a], r[b]);
          ChainBeforeCons(c, r[a], r[b]);
        }
      }
    }
  }

  /** In `order`, vertex `j` is the earliest vertex with an edge to vertex
      `k`: the one that queued it. */
  ghost predicate BfsParent(g: Graph, order: seq<Label>, k: int, j: int) {
    && 0 <= j < k < |order|
    && HasEdge(g, order[j], order[k])
    && forall j' :: 0 <= j' < j ==> !HasEdge(g, order[j'], order[k])
  }

  ghost predicate HasBfsParent(g: Graph, order: seq<Label>, k: int) {
    exists j :: BfsParent(g, order, k, j)
  }

  /** Vertices queued by an earlier vertex come first; vertices queued by
      the same vertex come in the order of its chain. */
  ghost predicate BfsLayered(g: Graph, order: seq<Label>) {
    forall k, k', j, j' :: 0 < k < k' < |order| && BfsParent(g, order, k, j) && BfsParent(g, order, k', j') ==>
      && j <= j'
      && (j == j' ==> ChainBefore(g.adj[order[j]].chain, order[k], order[k']))
  }

  /** A breadth-first order from `origin`: it starts there, repeats nothing,
      each later vertex has an edge from an earlier one, and vertices come
      grouped by the earliest vertex with an edge to them, in chain order. */
  ghost predicate BfsOrder(g: Graph, origin: Label, order: seq<Label>) {
    && |order| > 0
    && order[0] == origin
    && Distinct(order)
    && (forall k :: 0 < k < |order| ==> HasBfsParent(g, order, k))
    && BfsLayered(g, order)
  }

  /** The breadth-first loop invariant over `e`, the vertices marked so far
      in the order they were queued, of which the first `done` have been
      dequeued: each is reachable and was queued by a dequeued vertex, and
      every dequeued vertex has all its successors marked. */
  ghost predicate BfsInv(g: Graph, origin: Label, e: seq<Label>, done: int, visited: set<Label>) {
    && 0 <= done <= |e|
    && |e| > 0
    && e[0] == origin
    && Distinct(e)
    && LabelSet(e) == visited
    && visited <= g.adj.Keys
    && (forall v :: v in visited ==> Reachable(g, origin, v))
    && (forall k :: 0 <= k < done ==> Finished(g, e[k], visited))
    && (forall k :: 0 < k < |e| ==> HasBfsParent(g, e, k))
    && (forall k, j :: BfsParent(g, e, k, j) ==> j < done)
    && BfsLayered(g, e)
  }

  lemma BfsParentUnique(g: Graph, order: seq<Label>, k: int, j: int, j': int)
    requires BfsParent(g, order, k, j) && BfsParent(g, order, k, j')
    ensures j == j'
  {
  }

  lemma BfsParentExtend(g: Graph, order: seq<Label>, more: seq<Label>, k: int, j: int)
    requires 0 <= k < |order|
    ensures BfsParent(g, order, k, j) <==> BfsParent(g, order + more, k, j)
  {
    var e := order + more;
    assert forall i :: 0 <= i < |order| ==> e[i] == order[i];
  }

  /** Appending vertices that are not yet marked keeps `e` free of repeats. */
  lemma DistinctAppend(e: seq<Label>, more: seq<Label>)
    requires Distinct(e) && Distinct(more)
    requires forall v :: v in more ==> v !in e
    ensures Distinct(e + more)
  {
    var e' := e + more;
    forall a, b | 0 <= a < b < |e'|
      ensures e'[a] != e'[b]
    {
      if b >= |e| && a < |e| {
        assert e'[a] in e;
        assert e'[b] == more[b - |e|];
      } else if a >= |e| {
        assert e'[a] == more[a - |e|] && e'[b] == more[b - |e|];
      }
    }
  }

  /** The successors of the dequeued vertex `e[done]` that are not marked. */
  function NewlyQueued(g: Graph, e: seq<Label>, done: int, visited: set<Label>): (r: (seq<Label>, set<Label>))
    requires 0 <= done < |e| && e[done] in g.adj
  {
    AddUnvisited(g.adj[e[done]].chain, visited)
  }

  /** Dequeuing `f` and queuing its unvisited successors: the marked
      vertices grow by exactly the new ones, all reachable. */
  lemma BfsStepBasic(g: Graph, origin: Label, e: seq<Label>, done: int, visited: set<Label>)
    requires Closed(g) && BfsInv(g, origin, e, done, visited) && done < |e|
    ensures e[done] in g.adj
    ensures var r := NewlyQueued(g, e, done, visited);
            var e' := e + r.0;
            && |e'| > 0 && e'[0] == origin
            && Distinct(e')
            && LabelSet(e') == r.1
            && r.1 <= g.adj.Keys
            && (forall v :: v in r.1 ==> Reachable(g, origin, v))
  {
    var f := e[done];
    assert f in visited;
    var r := NewlyQueued(g, e, done, visited);
    forall v | v in r.0
      ensures v in g.adj && Reachable(g, origin, v)
    {
      assert HasEdge(g, f, v);
      ReachStep(g, origin, f, v);
    }
    DistinctAppend(e, r.0);
    assert LabelSet(e + r.0) == LabelSet(e) + LabelSet(r.0);
  }

  /** After the step every dequeued vertex, `e[done]` included, is finished. */
  lemma BfsStepFinished(g: Graph, origin: Label, e: seq<Label>, done: int, visited: set<Label>)
    requires BfsInv(g, origin, e, done, visited) && done < |e| && e[done] in g.adj
    ensures var r := NewlyQueued(g, e, done, visited);
            forall k :: 0 <= k < done + 1 ==> Finished(g, (e + r.0)[k], r.1)
  {
    var r := NewlyQueued(g, e, done, visited);
    forall k | 0 <= k < done + 1
      ensures Finished(g, (e + r.0)[k], r.1)
    {
      assert (e + r.0)[k] == e[k];
      if k < done {
        FinishedGrows(g, e[k], visited, r.1);
      }
    }
  }

  /** A newly queued vertex was queued by `e[done]`, the earliest vertex with
      an edge to it. */
  lemma BfsNewParent(g: Graph, origin: Label, e: seq<Label>, done: int, visited: set<Label>, k: int)
    requires BfsInv(g, origin, e, done, visited) && done < |e| && e[done] in g.adj
    requires |e| <= k < |e| + |NewlyQueued(g, e, done, visited).0|
    ensures BfsParent(g, e + NewlyQueued(g, e, done, visited).0, k, done)
  {
    var f := e[done];
    var r := NewlyQueued(g, e, done, visited);
    var e' := e + r.0;
    var t := e'[k];
    assert t == r.0[k - |e|];
    assert e'[done] == f;
    TargetsMembers(g.adj[f].chain);
    forall j' | 0 <= j' < done
      ensures !HasEdge(g, e'[j'], t)
    {
      assert e'[j'] == e[j'];
      assert Finished(g, e[j'], visited);
    }
  }

  /** After the step every vertex but the origin was queued by a dequeued
      vertex: the new ones by `e[done]`. */
  lemma BfsStepParents(g: Graph, origin: Label, e: seq<Label>, done: int, visited: set<Label>)
    requires BfsInv(g, origin, e, done, visited) && done < |e| && e[done] in g.adj
    ensures var e' := e + NewlyQueued(g, e, done, visited).0;
            forall k :: 0 < k < |e'| ==> HasBfsParent(g, e', k)
    ensures var e' := e + NewlyQueued(g, e, done, visited).0;
            forall k, j :: BfsParent(g, e', k, j) ==> j < done + 1
  {
    var r := NewlyQueued(g, e, done, visited);
    var e' := e + r.0;
    forall k | 0 < k < |e'|
      ensures HasBfsParent(g, e', k)
    {
      if k < |e| {
        assert HasBfsParent(g, e, k);
        var j :| BfsParent(g, e, k, j);
        BfsParentExtend(g, e, r.0, k, j);
      } else {
        BfsNewParent(g, origin, e, done, visited, k);
      }
    }
    forall k, j | BfsParent(g, e', k, j)
      ensures j < done + 1
    {
      if k < |e| {
        BfsParentExtend(g, e, r.0, k, j);
      } else {
        BfsNewParent(g, origin, e, done, visited, k);
        BfsParentUnique(g, e', k, j, done);
      }
    }
  }

  /** After the step the vertices are still grouped by their parents, in
      chain order within a group. */
  lemma BfsStepLayered(g: Graph, origin: Label, e: seq<Label>, done: int, visited: set<Label>)
    requires BfsInv(g, origin, e, done, visited) && done < |e| && e[done] in g.adj
    ensures BfsLayered(g, e + NewlyQueued(g, e, done, visited).0)
  {
    var f := e[done];
    var r := NewlyQueued(g, e, done, visited);
    var e' := e + r.0;
    AddUnvisitedInChainOrder(g.adj[f].chain, visited);
    forall k, k', j, j' | 0 < k < k' < |e'| && BfsParent(g, e', k, j) && BfsParent(g, e', k', j')
      ensures j <= j'
      ensures j == j' ==> ChainBefore(g.adj[e'[j]].chain, e'[k], e'[k'])
    {
      if k' < |e| {
        BfsParentExtend(g, e, r.0, k, j);
        BfsParentExtend(g, e, r.0, k', j');
        assert e'[k] == e[k] && e'[k'] == e[k'] && e'[j] == e[j];
      } else if k < |e| {
        BfsParentExtend(g, e, r.0, k, j);
        BfsNewParent(g, origin, e, done, visited, k');
        BfsParentUnique(g, e', k', done, j');
      } else {
        BfsNewParent(g, origin, e, done, visited, k);
        BfsNewParent(g, origin, e, done, visited, k');
        BfsParentUnique(g, e', k, done, j);
        BfsParentUnique(g, e', k', done, j');
        assert e'[k] == r.0[k - |e|] && e'[k'] == r.0[k' - |e|];
        assert InChainOrder(g.adj[f].chain, r.0);
        assert ChainBefore(g.adj[f].chain, r.0[k - |e|], r.0[k' - |e|]);
        assert e'[j] == f;
      }
    }
  }

  /** One round of the breadth-first loop keeps its invariant. */
  lemma BfsKeeps(g: Graph, origin: Label, e: seq<Label>, done: int, visited: set<Label>)
    requires Closed(g) && BfsInv(g, origin, e, done, visited) && done < |e|
    ensures e[done] in g.adj
    ensures var r := NewlyQueued(g, e, done, visited);
            BfsInv(g, origin, e + r.0, done + 1, r.1)
  {
    BfsStepBasic(g, origin, e, done, visited);
    BfsStepFinished(g, origin, e, done, visited);
    BfsStepParents(g, origin, e, done, visited);
    BfsStepLayered(g, origin, e, done, visited);
  }

  /** `BFS` (graph.cpp:253-267) with `bfs` (graph.cpp:488-500): the labels
      passed to the callback, in order. Nothing is visited when the origin
      is not a vertex; otherwise the visit is a breadth-first order from the
      origin holding exactly the reachable vertices. */
  method Bfs(g: Graph, origin: Label) returns (order: seq<Label>)
    requires Closed(g)
    ensures origin !in g.adj ==> order == []
    ensures origin in g.adj ==> BfsOrder(g, origin, order)
    ensures forall v :: v in order <==> Reachable(g, origin, v)
  {
    order := [];
    if origin !in g.adj {
      return;
    }
    var queue := [origin];
    var visited := {origin};
    ReachSelf(g, origin);
    assert LabelSet(order + queue) == visited;
    while |queue| > 0
      invariant BfsInv(g, origin, order + queue, |order|, visited)
      decreases |queue| + 2 * |g.adj.Keys - visited|
    {
      var f := queue[0];
      ghost var e := order + queue;
      assert e[|order|] == f;
      BfsKeeps(g, origin, e, |order|, visited);
      var r := AddUnvisited(g.adj[f].chain, visited);
      QueueShift(order, queue, r.0);
      QueueShrinks(g.adj.Keys, visited, r.0, r.1);
      order := order + [f];
      queue := queue[1..] + r.0;
      visited := r.1;
    }
    BfsDone(g, origin, order, visited);
  }

  /** Moving the head of the queue to the end of the dequeued vertices
      leaves the sequence of marked vertices unchanged. */
  lemma QueueShift(order: seq<Label>, queue: seq<Label>, more: seq<Label>)
    requires |queue| > 0
    ensures (order + [queue[0]]) + (queue[1..] + more) == (order + queue) + more
  {
    assert queue == [queue[0]] + queue[1..];
  }

  /** Each newly queued vertex is a newly marked one. */
  lemma QueueShrinks(keys: set<Label>, visited: set<Label>, more: seq<Label>, visited': set<Label>)
    requires visited' == visited + LabelSet(more) && visited' <= keys
    requires Distinct(more) && forall v :: v in more ==> v !in visited
    ensures |keys - visited'| + |more| == |keys - visited|
  {
    DistinctCard(more);
    assert keys - visited == (keys - visited') + LabelSet(more);
  }

  /** A sequence without repeats has as many labels as elements. */
  lemma {:induction false} DistinctCard(s: seq<Label>)
    requires Distinct(s)
    ensures |LabelSet(s)| == |s|
  {
    if |s| > 0 {
      var init := s[..|s| - 1];
      assert Distinct(init);
      DistinctCard(init);
      assert LabelSet(s) == LabelSet(init) + {s[|s| - 1]};
    }
  }

  /** With the queue empty the dequeued vertices are closed under
      successors, so they are all the reachable ones. */
  lemma BfsDone(g: Graph, origin: Label, order: seq<Label>, visited: set<Label>)
    requires BfsInv(g, origin, order + [], |order|, visited)
    ensures BfsOrder(g, origin, order)
    ensures forall v :: v in order <==> Reachable(g, origin, v)
  {
    assert order + [] == order;
    forall u, v | u in visited && HasEdge(g, u, v)
      ensures v in visited
    {
      var k :| 0 <= k < |order| && order[k] == u;
      assert Finished(g, order[k], visited);
    }
    ClosedSetHoldsReachable(g, origin, visited);
  }
}
