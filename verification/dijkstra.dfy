/** Dijkstra's single-source shortest walks (`Dijkstra`, `initMaps`,
    `dijkstra`, `nextSmallest`, `update` and `cleanWeights`, graph.cpp:278-293
    and 532-646).

    The distance map uses `INT_MAX` for "not reached yet"; the settled set
    holds the vertices whose distance is final. Each round settles the
    unsettled vertex of least distance below `INT_MAX` (the first in key
    order on a tie) and relaxes its out-edges. At the end every entry equal
    to `INT_MAX` or to `NO_WEIGHT` (0) is erased: the origin's own entry, but
    also that of any vertex reached at cost zero, whose predecessor entry
    stays. Arithmetic is on unbounded integers. */
module ShortestPaths {

  import opened Labels
  import opened Options
  import opened Chains
  import opened Graphs
  import opened Paths

  /** `WeightMap` and `PrevMap` of graph.h:49-50. */
  type WeightMap = map<Label, int>

  type PrevMap = map<Label, Label>

  /** `NO_WEIGHT` (graph.cpp:14): the origin's own distance. */
  const NoWeight: int := 0

  /** The first loop of `initMaps`: every target along the origin's chain
      gets the edge's weight and the origin as predecessor. */
  function InitChain(c: seq<Edge>, origin: Label, W: WeightMap, P: PrevMap): (r: (WeightMap, PrevMap))
    ensures forall k :: k in r.0 <==> k in W || k in Targets(c)
    ensures forall k :: k in r.1 <==> k in P || k in Targets(c)
    ensures forall k :: k in Targets(c) ==> Edge(k, r.0[k]) in c && r.1[k] == origin
    ensures forall k :: k in W && k !in Targets(c) ==> r.0[k] == W[k]
    ensures forall k :: k in P && k !in Targets(c) ==> r.1[k] == P[k]
  {
    if |c| == 0 then (W, P)
    else
      var r := InitChain(c[1..], origin, W[c[0].target := c[0].weight], P[c[0].target := origin]);
      assert forall e :: e in c[1..] ==> e in c;
      r
  }

  /** `initMaps` (graph.cpp:532-550): the origin's successors as above, then
      `INT_MAX` for every vertex the distance map does not hold yet. */
  function InitMaps(g: Graph, origin: Label, W: WeightMap, P: PrevMap): (r: (WeightMap, PrevMap))
    requires origin in g.adj
    ensures forall k :: k in r.0 <==> k in W || k in g.adj || k in Succs(g, origin)
    ensures forall k :: k in r.1 <==> k in P || k in Succs(g, origin)
    ensures forall k :: k in Succs(g, origin) ==> Edge(k, r.0[k]) in g.adj[origin].chain && r.1[k] == origin
    ensures forall k :: k in r.0 && k !in Succs(g, origin) ==> r.0[k] == (if k in W then W[k] else IntMax)
    ensures forall k :: k in P && k !in Succs(g, origin) ==> r.1[k] == P[k]
  {
    var c := InitChain(g.adj[origin].chain, origin, W, P);
    (map k | k in c.0.Keys + g.adj.Keys :: if k in c.0 then c.0[k] else IntMax, c.1)
  }

  /** `x` is an unsettled entry below `INT_MAX` whose distance is least. */
  ghost predicate Least(W: WeightMap, settled: set<Label>, x: Label) {
    && x in W && x !in settled && W[x] < IntMax
    && forall k :: k in W && k !in settled ==> W[x] <= W[k]
  }

  /** Every unsettled entry is at `INT_MAX` or above. */
  ghost predicate NoneBelow(W: WeightMap, settled: set<Label>) {
    forall k :: k in W && k !in settled ==> W[k] >= IntMax
  }

  /** What `nextSmallest` returns, ties aside. */
  ghost predicate Chosen(W: WeightMap, settled: set<Label>, r: Option<Label>) {
    if r.Some? then Least(W, settled, r.value) else NoneBelow(W, settled)
  }

  /** `m` is no greater than the entry of `k`, when `k` is unsettled. */
  ghost predicate NotAbove(W: WeightMap, settled: set<Label>, k: Label, m: int) {
    k in W && k !in settled ==> m <= W[k]
  }

  /** `m` is below the entry of `k`, when `k` is unsettled. */
  ghost predicate Below(W: WeightMap, settled: set<Label>, k: Label, m: int) {
    k in W && k !in settled ==> m < W[k]
  }

  /** `nextSmallest` (graph.cpp:589-611): a scan of the distance map in key
      order with a strict comparison, starting from `INT_MAX`. It finds an
      unsettled entry below `INT_MAX` of least distance, the least label
      among equals, or `None` when there is no such entry. */
  method NextSmallest(W: WeightMap, settled: set<Label>) returns (r: Option<Label>)
    ensures Chosen(W, settled, r)
    ensures r.Some? ==> forall k :: k in W && k !in settled && W[k] == W[r.value] ==> k == r.value || Less(r.value, k)
  {
    var keys := SortedLabels(W.Keys);
    var smallest := IntMax;
    r := None;
    ghost var at := 0;
    var i := 0;
    while i < |keys|
      invariant ScanInv(W, settled, keys, i, r, at, smallest)
    {
      var k := keys[i];
      if k !in settled && W[k] < smallest {
        ScanTake(W, settled, keys, i, r, at, smallest);
        smallest := W[k];
        r := Some(k);
        at := i;
      } else {
        ScanSkip(W, settled, keys, i, r, at, smallest);
      }
      i := i + 1;
    }
    ScanResult(W, settled, keys, r, at, smallest);
  }

  /** The scan has looked at the first `i` keys in order: `smallest` is the
      least unsettled distance among them, or `INT_MAX`, and `r` the first
      key that holds it. */
  ghost predicate ScanInv(W: WeightMap, settled: set<Label>, keys: seq<Label>, i: int,
                          r: Option<Label>, at: int, smallest: int) {
    && keys == SortedLabels(W.Keys)
    && 0 <= i <= |keys|
    && (r.None? ==> smallest == IntMax)
    && (r.Some? ==> 0 <= at < i && keys[at] == r.value && r.value !in settled && smallest < IntMax)
    && (r.Some? ==> r.value in W && W[r.value] == smallest)
    && (forall j :: 0 <= j < i ==> NotAbove(W, settled, keys[j], smallest))
    && (r.Some? ==> forall j :: 0 <= j < at ==> Below(W, settled, keys[j], smallest))
  }

  /** A key below the best so far becomes the new best. */
  lemma ScanTake(W: WeightMap, settled: set<Label>, keys: seq<Label>, i: int,
                 r: Option<Label>, at: int, smallest: int)
    requires ScanInv(W, settled, keys, i, r, at, smallest) && i < |keys|
    requires keys[i] in W && keys[i] !in settled && W[keys[i]] < smallest
    ensures ScanInv(W, settled, keys, i + 1, Some(keys[i]), i, W[keys[i]])
  {
    var m := W[keys[i]];
    forall j | 0 <= j < i
      ensures Below(W, settled, keys[j], m)
    {
      assert NotAbove(W, settled, keys[j], smallest);
    }
  }

  /** Any other key leaves the best as it was. */
  lemma ScanSkip(W: WeightMap, settled: set<Label>, keys: seq<Label>, i: int,
                 r: Option<Label>, at: int, smallest: int)
    requires ScanInv(W, settled, keys, i, r, at, smallest) && i < |keys|
    requires keys[i] in W && !(keys[i] !in settled && W[keys[i]] < smallest)
    ensures ScanInv(W, settled, keys, i + 1, r, at, smallest)
  {
  }

  /** Reading the scan's invariant back in terms of the map: the chosen
      entry comes first in key order among its equals. */
  lemma ScanResult(W: WeightMap, settled: set<Label>, keys: seq<Label>, r: Option<Label>, at: int, smallest: int)
    requires ScanInv(W, settled, keys, |keys|, r, at, smallest)
    ensures Chosen(W, settled, r)
    ensures r.Some? ==> forall k :: k in W && k !in settled && W[k] == W[r.value] ==> k == r.value || Less(r.value, k)
  {
    SortedLabelsAscending(W.Keys);
    forall k | k in W && k !in settled
      ensures smallest <= W[k]
      ensures r.Some? && W[k] == smallest ==> k == r.value || Less(r.value, k)
    {
      var j :| 0 <= j < |keys| && keys[j] == k;
      assert NotAbove(W, settled, keys[j], smallest);
      if r.Some? && j < at {
        assert Below(W, settled, keys[j], smallest);
      }
      if r.Some? && at < j {
        assert Less(keys[at], keys[j]);
      }
    }
  }

  /** The edge `x -> k` gives `k` a shorter distance than it has. */
  ghost predicate Improves(g: Graph, x: Label, W: WeightMap, k: Label) {
    x in W && k in W && HasEdge(g, x, k) && W[x] + EdgeWeight(g, x, k) < W[k]
  }

  /** `update` (graph.cpp:622-633): when `x` has an edge to `k` and the
      distance through it is shorter, record it and `x` as predecessor. */
  function Update(g: Graph, x: Label, k: Label, W: WeightMap, P: PrevMap): (r: (WeightMap, PrevMap))
    requires x in g.adj && x in W && k in W
    ensures Improves(g, x, W, k) ==> r == (W[k := W[x] + EdgeWeight(g, x, k)], P[k := x])
    ensures !Improves(g, x, W, k) ==> r == (W, P)
  {
    match Adjacent(g.adj[x].chain, k)
    case None => (W, P)
    case Some(w) => if W[x] + w < W[k] then (W[k := W[x] + w], P[k := x]) else (W, P)
  }

  /** Relaxing through `x` lowers the entry of `k`: `k` is among the keys
      `D` handled so far, unsettled, and the edge `x -> k` improves it. */
  ghost predicate Lowered(g: Graph, x: Label, settled: set<Label>, W: WeightMap, D: set<Label>, k: Label) {
    k in D && k !in settled && Improves(g, x, W, k)
  }

  /** The distances after relaxing through `x` the entries of the keys in
      `D` that are not settled, each independently of the others. */
  ghost predicate WeightsRelaxed(g: Graph, x: Label, settled: set<Label>, W: WeightMap,
                                 D: set<Label>, W': WeightMap) {
    && W'.Keys == W.Keys
    && forall k :: k in W ==>
         W'[k] == (if Lowered(g, x, settled, W, D, k) then W[x] + EdgeWeight(g, x, k) else W[k])
  }

  /** The predecessors after the same relaxation: `x` for every lowered
      entry, the old one for the rest. */
  ghost predicate PrevsRelaxed(g: Graph, x: Label, settled: set<Label>, W: WeightMap, P: PrevMap,
                               D: set<Label>, P': PrevMap) {
    && (forall k :: k in P' <==> k in P || Lowered(g, x, settled, W, D, k))
    && (forall k :: k in P' ==> P'[k] == (if Lowered(g, x, settled, W, D, k) then x else P[k]))
  }

  ghost predicate PartlyRelaxed(g: Graph, x: Label, settled: set<Label>, W: WeightMap, P: PrevMap,
                                D: set<Label>, W': WeightMap, P': PrevMap) {
    WeightsRelaxed(g, x, settled, W, D, W') && PrevsRelaxed(g, x, settled, W, P, D, P')
  }

  ghost predicate Relaxed(g: Graph, x: Label, settled: set<Label>, W: WeightMap, P: PrevMap,
                          W': WeightMap, P': PrevMap) {
    PartlyRelaxed(g, x, settled, W, P, W.Keys, W', P')
  }

  /** Midway through the relaxation the entry of `x` has not moved, since
      `x` has no edge to itself, so `k` improves now exactly when it did at
      the start and has not been handled yet. */
  lemma UpdateSees(g: Graph, x: Label, settled: set<Label>, W: WeightMap, D: set<Label>, W': WeightMap, k: Label)
    requires x in W && !HasEdge(g, x, x) && k in W && k !in settled
    requires WeightsRelaxed(g, x, settled, W, D, W')
    ensures x in W' && W'[x] == W[x]
    ensures Improves(g, x, W', k) <==> !Lowered(g, x, settled, W, D, k) && Improves(g, x, W, k)
  {
    assert !Improves(g, x, W, x);
  }

  /** Handling one more key leaves the lowering of every other key as it
      was. */
  lemma LoweredOthers(g: Graph, x: Label, settled: set<Label>, W: WeightMap, D: set<Label>, k: Label)
    ensures forall j :: j != k ==> (Lowered(g, x, settled, W, D + {k}, j) <==> Lowered(g, x, settled, W, D, j))
    ensures k !in settled ==> (Lowered(g, x, settled, W, D + {k}, k) <==> Improves(g, x, W, k))
  {
  }

  lemma UpdateWeights(g: Graph, x: Label, settled: set<Label>, W: WeightMap, P: PrevMap,
                      D: set<Label>, W': WeightMap, P': PrevMap, k: Label)
    requires x in g.adj && x in W && !HasEdge(g, x, x) && k in W && k !in settled
    requires WeightsRelaxed(g, x, settled, W, D, W')
    ensures x in W'
    ensures WeightsRelaxed(g, x, settled, W, D + {k}, Update(g, x, k, W', P').0)
  {
    UpdateSees(g, x, settled, W, D, W', k);
    LoweredOthers(g, x, settled, W, D, k);
  }

  lemma UpdatePrevs(g: Graph, x: Label, settled: set<Label>, W: WeightMap, P: PrevMap,
                    D: set<Label>, W': WeightMap, P': PrevMap, k: Label)
    requires x in g.adj && x in W && !HasEdge(g, x, x) && k in W && k !in settled
    requires WeightsRelaxed(g, x, settled, W, D, W') && PrevsRelaxed(g, x, settled, W, P, D, P')
    ensures x in W'
    ensures PrevsRelaxed(g, x, settled, W, P, D + {k}, Update(g, x, k, W', P').1)
  {
    UpdateSees(g, x, settled, W, D, W', k);
    LoweredOthers(g, x, settled, W, D, k);
  }

  /** One `update` keeps the relaxation exact. */
  lemma UpdateStep(g: Graph, x: Label, settled: set<Label>, W: WeightMap, P: PrevMap,
                   D: set<Label>, W': WeightMap, P': PrevMap, k: Label)
    requires x in g.adj && x in W && !HasEdge(g, x, x) && k in W && k !in settled
    requires PartlyRelaxed(g, x, settled, W, P, D, W', P')
    ensures x in W'
    ensures var r := Update(g, x, k, W', P');
            PartlyRelaxed(g, x, settled, W, P, D + {k}, r.0, r.1)
  {
    UpdateWeights(g, x, settled, W, P, D, W', P', k);
    UpdatePrevs(g, x, settled, W, P, D, W', P', k);
  }

  /** A settled key is skipped: its entries were never to change. */
  lemma SkipSettled(g: Graph, x: Label, settled: set<Label>, W: WeightMap, P: PrevMap,
                    D: set<Label>, W': WeightMap, P': PrevMap, k: Label)
    requires k in settled
    requires PartlyRelaxed(g, x, settled, W, P, D, W', P')
    ensures PartlyRelaxed(g, x, settled, W, P, D + {k}, W', P')
  {
  }

  /** The loop of `dijkstra` (graph.cpp:567-575) over the distance map in
      key order, calling `update` for each key not settled. Every unsettled
      successor of `x` ends with the lesser of its old distance and the
      distance through `x`, and `x` becomes its predecessor exactly when
      that is shorter; settled entries and other vertices do not change.
      The order of the keys does not matter. */
  method Relax(g: Graph, x: Label, settled: set<Label>, W: WeightMap, P: PrevMap)
    returns (W': WeightMap, P': PrevMap)
    requires x in g.adj && x in W && !HasEdge(g, x, x)
    ensures Relaxed(g, x, settled, W, P, W', P')
  {
    var keys := SortedLabels(W.Keys);
    W', P' := W, P;
    ghost var done: set<Label> := {};
    var i := 0;
    while i < |keys|
      invariant 0 <= i <= |keys|
      invariant Covers(keys, i, done)
      invariant PartlyRelaxed(g, x, settled, W, P, done, W', P')
    {
      var k := keys[i];
      if k !in settled {
        UpdateStep(g, x, settled, W, P, done, W', P', k);
        var u := Update(g, x, k, W', P');
        W', P' := u.0, u.1;
      } else {
        SkipSettled(g, x, settled, W, P, done, W', P', k);
      }
      CoversStep(keys, i, done);
      done := done + {k};
      i := i + 1;
    }
    RelaxDone(g, x, settled, W, P, keys, done, W', P');
  }

  /** The first `i` keys have been handled. */
  ghost predicate Covers(keys: seq<Label>, i: int, done: set<Label>) {
    0 <= i <= |keys| && forall j :: 0 <= j < i ==> keys[j] in done
  }

  lemma CoversStep(keys: seq<Label>, i: int, done: set<Label>)
    requires Covers(keys, i, done) && i < |keys|
    ensures Covers(keys, i + 1, done + {keys[i]})
  {
  }

  lemma RelaxDone(g: Graph, x: Label, settled: set<Label>, W: WeightMap, P: PrevMap,
                  keys: seq<Label>, done: set<Label>, W': WeightMap, P': PrevMap)
    requires forall k :: k in keys <==> k in W
    requires Covers(keys, |keys|, done)
    requires PartlyRelaxed(g, x, settled, W, P, done, W', P')
    ensures Relaxed(g, x, settled, W, P, W', P')
  {
    forall k | k in W
      ensures k in done
    {
      var j :| 0 <= j < |keys| && keys[j] == k;
    }
  }

  /** What `cleanWeights` leaves of `W`: the entries of non-vertices, and
      those of vertices whose distance is neither `INT_MAX` nor `NO_WEIGHT`,
      each with its value. */
  ghost predicate Cleaned(g: Graph, W: WeightMap, dist: WeightMap) {
    && (forall k :: k in dist <==> k in W && (k !in g.adj || (W[k] != IntMax && W[k] != NoWeight)))
    && (forall k :: k in dist ==> dist[k] == W[k])
  }

  /** The loop of `cleanWeights` has handled the vertices in `done`, the
      first `i` in key order; every other entry is still as in `W`. */
  ghost predicate CleanInv(g: Graph, W: WeightMap, keys: seq<Label>, i: int, done: set<Label>, dist: WeightMap) {
    && keys == SortedLabels(g.adj.Keys)
    && Covers(keys, i, done) && done <= g.adj.Keys
    && (forall k :: k in done ==> (k in dist <==> k in W && W[k] != IntMax && W[k] != NoWeight))
    && (forall k :: k !in done ==> (k in dist <==> k in W))
    && (forall k :: k in dist ==> dist[k] == W[k])
  }

  /** One vertex handled: read through `operator[]` (0 when absent), erased
      when at `INT_MAX` or 0. A vertex handled twice ends the same way. */
  lemma CleanStep(g: Graph, W: WeightMap, keys: seq<Label>, i: int, done: set<Label>,
                  dist: WeightMap, dist': WeightMap)
    requires CleanInv(g, W, keys, i, done, dist) && i < |keys|
    requires var k := keys[i];
             var w := if k in dist then dist[k] else NoWeight;
             dist' == if w == IntMax || w == NoWeight then dist[k := w] - {k} else dist[k := w]
    ensures CleanInv(g, W, keys, i + 1, done + {keys[i]}, dist')
  {
    CoversStep(keys, i, done);
  }

  /** `cleanWeights` (graph.cpp:636-646): for each vertex in key order, the
      distance map's entry is read with `operator[]`, which inserts 0 for a
      missing key, and erased when it is `INT_MAX` or 0. What is left is
      every entry of a non-vertex and every entry of a vertex at a real
      distance, unchanged. */
  method CleanWeights(g: Graph, W: WeightMap) returns (dist: WeightMap)
    ensures Cleaned(g, W, dist)
  {
    var keys := SortedLabels(g.adj.Keys);
    dist := W;
    ghost var done: set<Label> := {};
    var i := 0;
    while i < |keys|
      invariant CleanInv(g, W, keys, i, done, dist)
      decreases |keys| - i
    {
      var k := keys[i];
      var w := if k in dist then dist[k] else NoWeight;
      var dist' := dist[k := w];
      if w == IntMax || w == NoWeight {
        dist' := dist' - {k};
      }
      CleanStep(g, W, keys, i, done, dist, dist');
      dist := dist';
      done := done + {k};
      i := i + 1;
    }
    forall k | k in g.adj
      ensures k in done
    {
      var j :| 0 <= j < |keys| && keys[j] == k;
    }
  }

  /** The distance a caller reads for `v` after `Dijkstra`: absent entries
      read as 0 through `operator[]`. */
  function Reported(dist: WeightMap, v: Label): int {
    if v in dist then dist[v] else NoWeight
  }

  /** `P[v]` is settled, has an edge to `v`, and `v`'s distance is its
      distance plus that edge. */
  ghost predicate Parented(g: Graph, W: WeightMap, settled: set<Label>, P: PrevMap, v: Label) {
    && v in P && v in W && P[v] in settled && P[v] in W
    && HasEdge(g, P[v], v)
    && W[v] == W[P[v]] + EdgeWeight(g, P[v], v)
  }

  /** The maps cover the vertices; the origin is settled at distance
      `NO_WEIGHT` without a predecessor; settled distances are below
      `INT_MAX`. */
  ghost predicate InvShape(g: Graph, origin: Label, W: WeightMap, P: PrevMap, settled: set<Label>) {
    && W.Keys == g.adj.Keys
    && origin in settled && settled <= g.adj.Keys
    && W[origin] == NoWeight && origin !in P
    && (forall u :: u in settled ==> W[u] < IntMax)
  }

  ghost predicate InvParents(g: Graph, W: WeightMap, P: PrevMap, settled: set<Label>) {
    forall v :: v in P ==> Parented(g, W, settled, P, v)
  }

  /** Every vertex but the origin with a distance other than `INT_MAX` has a
      predecessor. */
  ghost predicate InvReached(origin: Label, W: WeightMap, P: PrevMap) {
    forall v :: v in W && v != origin && W[v] != IntMax ==> v in P
  }

  /** Behind every predecessor entry is a walk of the recorded weight. */
  ghost predicate InvWalks(g: Graph, origin: Label, W: WeightMap, P: PrevMap) {
    forall v :: v in P && v in W ==> WalkOfWeight(g, origin, v, W[v])
  }

  /** Every edge out of a settled vertex has been relaxed. */
  ghost predicate Bridged(g: Graph, W: WeightMap, settled: set<Label>) {
    forall z, y :: z in settled && z in W && y in W && y !in settled && HasEdge(g, z, y) ==>
      W[y] <= W[z] + EdgeWeight(g, z, y)
  }

  /** No walk from the origin to a settled vertex is cheaper than its
      distance. */
  ghost predicate SettledOptimal(g: Graph, origin: Label, W: WeightMap, settled: set<Label>) {
    forall p :: IsPath(g, p) && p[0] == origin && p[|p| - 1] in settled && p[|p| - 1] in W ==>
      W[p[|p| - 1]] <= PathWeight(g, p)
  }

  /** The invariant of the loop of `dijkstra` (graph.cpp:559-579). */
  ghost predicate DijkstraInv(g: Graph, origin: Label, W: WeightMap, P: PrevMap, settled: set<Label>) {
    && InvShape(g, origin, W, P, settled)
    && InvParents(g, W, P, settled)
    && InvReached(origin, W, P)
    && InvWalks(g, origin, W, P)
    && Bridged(g, W, settled)
    && (NonNegative(g) ==> SettledOptimal(g, origin, W, settled))
  }

  /** The maps after `wMap[label] = NO_WEIGHT` and `initMaps`: every vertex
      has an entry, the origin's is `NO_WEIGHT`, its successors carry their
      edge weight and the origin as predecessor, all else is `INT_MAX`. */
  ghost predicate Started(g: Graph, origin: Label, W: WeightMap, P: PrevMap) {
    && origin in g.adj && W.Keys == g.adj.Keys && W[origin] == NoWeight && origin !in P
    && (forall v :: v in P <==> HasEdge(g, origin, v))
    && (forall v :: v in P ==> v in W && W[v] == EdgeWeight(g, origin, v) && P[v] == origin)
    && (forall v :: v in W && v !in P && v != origin ==> W[v] == IntMax)
  }

  lemma StartMaps(g: Graph, origin: Label)
    requires Shaped(g.adj) && origin in g.adj
    ensures var r := InitMaps(g, origin, map[origin := NoWeight], map[]);
            Started(g, origin, r.0, r.1)
  {
    var r := InitMaps(g, origin, map[origin := NoWeight], map[]);
    var c := g.adj[origin].chain;
    assert Fits(g.adj.Keys, origin, g.adj[origin]);
    forall v | v in r.1
      ensures r.0[v] == EdgeWeight(g, origin, v)
    {
      assert Edge(v, r.0[v]) in c;
    }
  }

  lemma StartShape(g: Graph, origin: Label, W: WeightMap, P: PrevMap)
    requires Started(g, origin, W, P)
    ensures InvShape(g, origin, W, P, {origin}) && InvReached(origin, W, P)
  {
  }

  lemma StartParents(g: Graph, origin: Label, W: WeightMap, P: PrevMap)
    requires Started(g, origin, W, P)
    ensures InvParents(g, W, P, {origin}) && Bridged(g, W, {origin})
  {
    assert forall v :: v in P ==> Parented(g, W, {origin}, P, v);
  }

  lemma StartWalks(g: Graph, origin: Label, W: WeightMap, P: PrevMap)
    requires Started(g, origin, W, P)
    ensures InvWalks(g, origin, W, P)
  {
    WalkStart(g, origin);
    forall v | v in P && v in W
      ensures WalkOfWeight(g, origin, v, W[v])
    {
      WalkStep(g, origin, origin, 0, v);
    }
  }

  lemma StartOptimal(g: Graph, origin: Label, W: WeightMap, P: PrevMap)
    requires Started(g, origin, W, P) && NonNegative(g)
    ensures SettledOptimal(g, origin, W, {origin})
  {
    forall p | IsPath(g, p) && p[0] == origin && p[|p| - 1] in {origin} && p[|p| - 1] in W
      ensures W[p[|p| - 1]] <= PathWeight(g, p)
    {
      PrefixWeighsLess(g, p, 1);
    }
  }

  /** After `wMap[label] = NO_WEIGHT` and `initMaps`, with the origin
      settled, the invariant holds. */
  lemma DijkstraStart(g: Graph, origin: Label)
    requires Shaped(g.adj) && origin in g.adj
    ensures var r := InitMaps(g, origin, map[origin := NoWeight], map[]);
            DijkstraInv(g, origin, r.0, r.1, {origin})
  {
    var r := InitMaps(g, origin, map[origin := NoWeight], map[]);
    StartMaps(g, origin);
    StartShape(g, origin, r.0, r.1);
    StartParents(g, origin, r.0, r.1);
    StartWalks(g, origin, r.0, r.1);
    if NonNegative(g) {
      StartOptimal(g, origin, r.0, r.1);
    }
  }

  /** Along a walk from the settled origin either the walk ends at a settled
      vertex or some unsettled vertex already has a distance no greater than
      the walk's weight: the first unsettled vertex on it. */
  lemma {:induction false} Crossing(g: Graph, origin: Label, W: WeightMap, settled: set<Label>, p: seq<Label>)
    returns (y: Label)
    requires NonNegative(g) && W.Keys == g.adj.Keys && origin in settled
    requires Bridged(g, W, settled) && SettledOptimal(g, origin, W, settled)
    requires IsPath(g, p) && p[0] == origin
    ensures p[|p| - 1] in settled || (y in W && y !in settled && W[y] <= PathWeight(g, p))
    decreases |p|
  {
    y := p[|p| - 1];
    if |p| > 1 && y !in settled {
      var q := p[..|p| - 1];
      assert IsPath(g, q);
      var u := p[|p| - 2];
      assert q[|q| - 1] == u;
      assert HasEdge(g, u, y);
      assert PathWeight(g, p) == PathWeight(g, q) + EdgeWeight(g, u, y);
      if u in settled {
        assert W[u] <= PathWeight(g, q);
      } else {
        y := Crossing(g, origin, W, settled, q);
      }
    }
  }

  /** What relaxing through `x` does to distances: settled ones and `x`'s
      stay, none grows, and every unsettled successor of `x` ends no further
      than the distance through `x`. */
  lemma RelaxFacts(g: Graph, x: Label, settled: set<Label>, W: WeightMap, P: PrevMap, W': WeightMap, P': PrevMap)
    requires Loopless(g) && x in W && Relaxed(g, x, settled, W, P, W', P')
    ensures W'.Keys == W.Keys
    ensures forall u :: u in W && (u in settled || u == x) ==> W'[u] == W[u]
    ensures forall k :: k in W ==> W'[k] <= W[k]
    ensures forall k :: k in W && k !in settled && HasEdge(g, x, k) ==> W'[k] <= W[x] + EdgeWeight(g, x, k)
    ensures forall k :: k in P' && (k !in P || P'[k] != P[k]) ==> k in W && k !in settled && W'[k] == W[x] + EdgeWeight(g, x, k) && P'[k] == x && HasEdge(g, x, k)
    ensures forall k :: k in P && k in W && (k in settled || W'[k] == W[k]) ==> k in P' && P'[k] == P[k]
  {
    assert !HasEdge(g, x, x);
  }

  /** Relaxing through the chosen vertex `x` keeps the shape facts. */
  lemma KeepsShape(g: Graph, origin: Label, W: WeightMap, P: PrevMap, settled: set<Label>,
                   x: Label, W': WeightMap, P': PrevMap)
    requires Loopless(g) && InvShape(g, origin, W, P, settled)
    requires Least(W, settled, x) && Relaxed(g, x, settled, W, P, W', P')
    ensures InvShape(g, origin, W', P', settled + {x})
  {
    RelaxFacts(g, x, settled, W, P, W', P');
  }

  /** Relaxing keeps every predecessor entry consistent. */
  lemma KeepsParents(g: Graph, origin: Label, W: WeightMap, P: PrevMap, settled: set<Label>,
                     x: Label, W': WeightMap, P': PrevMap)
    requires Loopless(g) && InvShape(g, origin, W, P, settled) && InvParents(g, W, P, settled)
    requires Least(W, settled, x) && Relaxed(g, x, settled, W, P, W', P')
    ensures InvParents(g, W', P', settled + {x})
  {
    RelaxFacts(g, x, settled, W, P, W', P');
    forall v | v in P'
      ensures Parented(g, W', settled + {x}, P', v)
    {
      if v in P && P'[v] == P[v] {
        assert Parented(g, W, settled, P, v);
      }
    }
  }

  /** Every vertex the round reaches gets a predecessor. */
  lemma KeepsReached(g: Graph, origin: Label, W: WeightMap, P: PrevMap, settled: set<Label>,
                     x: Label, W': WeightMap, P': PrevMap)
    requires Loopless(g) && InvReached(origin, W, P)
    requires Least(W, settled, x) && Relaxed(g, x, settled, W, P, W', P')
    ensures InvReached(origin, W', P')
  {
  }

  /** Relaxing keeps a walk of the recorded weight behind every entry. */
  lemma KeepsWalks(g: Graph, origin: Label, W: WeightMap, P: PrevMap, settled: set<Label>,
                   x: Label, W': WeightMap, P': PrevMap)
    requires Loopless(g) && InvShape(g, origin, W, P, settled)
    requires InvReached(origin, W, P) && InvWalks(g, origin, W, P)
    requires Least(W, settled, x) && Relaxed(g, x, settled, W, P, W', P')
    ensures InvWalks(g, origin, W', P')
  {
    RelaxFacts(g, x, settled, W, P, W', P');
    assert x in P;
    forall v | v in P' && v in W'
      ensures WalkOfWeight(g, origin, v, W'[v])
    {
      if v !in P || P'[v] != P[v] {
        WalkStep(g, origin, x, W[x], v);
      } else if W'[v] != W[v] {
        WalkStep(g, origin, x, W[x], v);
      }
    }
  }

  /** After the round every edge out of a settled vertex, `x` included, is
      relaxed. */
  lemma KeepsBridged(g: Graph, W: WeightMap, P: PrevMap, settled: set<Label>,
                     x: Label, W': WeightMap, P': PrevMap)
    requires Loopless(g) && Bridged(g, W, settled)
    requires Least(W, settled, x) && Relaxed(g, x, settled, W, P, W', P')
    ensures Bridged(g, W', settled + {x})
  {
    RelaxFacts(g, x, settled, W, P, W', P');
  }

  /** The chosen vertex's distance is already the least walk weight: any
      walk to it crosses from the settled set at a vertex whose distance is
      no less than the chosen one's. */
  lemma KeepsOptimal(g: Graph, origin: Label, W: WeightMap, P: PrevMap, settled: set<Label>,
                     x: Label, W': WeightMap, P': PrevMap)
    requires Loopless(g) && NonNegative(g) && W.Keys == g.adj.Keys && origin in settled
    requires Bridged(g, W, settled) && SettledOptimal(g, origin, W, settled)
    requires Least(W, settled, x) && Relaxed(g, x, settled, W, P, W', P')
    ensures SettledOptimal(g, origin, W', settled + {x})
  {
    RelaxFacts(g, x, settled, W, P, W', P');
    forall p | IsPath(g, p) && p[0] == origin && p[|p| - 1] in settled + {x} && p[|p| - 1] in W'
      ensures W'[p[|p| - 1]] <= PathWeight(g, p)
    {
      var y := Crossing(g, origin, W, settled, p);
    }
  }

  /** One round of the loop of `dijkstra` keeps its invariant. */
  lemma DijkstraKeeps(g: Graph, origin: Label, W: WeightMap, P: PrevMap, settled: set<Label>,
                      x: Label, W': WeightMap, P': PrevMap)
    requires Loopless(g) && DijkstraInv(g, origin, W, P, settled)
    requires Least(W, settled, x) && Relaxed(g, x, settled, W, P, W', P')
    ensures DijkstraInv(g, origin, W', P', settled + {x})
  {
    KeepsShape(g, origin, W, P, settled, x, W', P');
    KeepsParents(g, origin, W, P, settled, x, W', P');
    KeepsReached(g, origin, W, P, settled, x, W', P');
    KeepsWalks(g, origin, W, P, settled, x, W', P');
    KeepsBridged(g, W, P, settled, x, W', P');
    if NonNegative(g) {
      KeepsOptimal(g, origin, W, P, settled, x, W', P');
    }
  }

  /** With nothing left below `INT_MAX`, every walk from the origin cheaper
      than `INT_MAX` ends at a settled vertex, whose distance it does not
      beat. */
  lemma DoneOptimal(g: Graph, origin: Label, W: WeightMap, settled: set<Label>)
    requires NonNegative(g) && W.Keys == g.adj.Keys && origin in settled
    requires Bridged(g, W, settled) && SettledOptimal(g, origin, W, settled)
    requires NoneBelow(W, settled)
    ensures forall p :: IsPath(g, p) && p[0] == origin && PathWeight(g, p) < IntMax ==>
              p[|p| - 1] in settled && W[p[|p| - 1]] <= PathWeight(g, p)
  {
    forall p | IsPath(g, p) && p[0] == origin && PathWeight(g, p) < IntMax
      ensures p[|p| - 1] in settled && W[p[|p| - 1]] <= PathWeight(g, p)
    {
      var y := Crossing(g, origin, W, settled, p);
    }
  }

  /** After `cleanWeights` neither map holds the origin, and every distance
      left is a real one with a predecessor. */
  lemma DoneEntries(g: Graph, origin: Label, W: WeightMap, P: PrevMap, settled: set<Label>, dist: WeightMap)
    requires InvShape(g, origin, W, P, settled) && InvReached(origin, W, P)
    requires Cleaned(g, W, dist)
    ensures origin !in dist && origin !in P
    ensures forall v :: v in dist ==> v in P && dist[v] != NoWeight && dist[v] != IntMax
  {
  }

  /** The distance of a settled vertex as a caller reads it. */
  lemma ReportedSettled(g: Graph, origin: Label, W: WeightMap, P: PrevMap, settled: set<Label>, dist: WeightMap, u: Label)
    requires InvShape(g, origin, W, P, settled) && u in settled
    requires Cleaned(g, W, dist)
    ensures Reported(dist, u) == W[u]
  {
  }

  /** Every predecessor entry is an edge into a reachable vertex, and the
      distance read for a vertex is the one read for its predecessor plus
      that edge. */
  lemma DoneParents(g: Graph, origin: Label, W: WeightMap, P: PrevMap, settled: set<Label>, dist: WeightMap)
    requires InvShape(g, origin, W, P, settled) && InvParents(g, W, P, settled) && InvWalks(g, origin, W, P)
    requires Cleaned(g, W, dist)
    ensures forall v :: v in P ==> HasEdge(g, P[v], v) && Reachable(g, origin, v)
    ensures forall v :: v in dist && v in P ==> dist[v] == Reported(dist, P[v]) + EdgeWeight(g, P[v], v)
  {
    forall v | v in P
      ensures HasEdge(g, P[v], v) && Reachable(g, origin, v)
      ensures v in dist ==> dist[v] == Reported(dist, P[v]) + EdgeWeight(g, P[v], v)
    {
      assert Parented(g, W, settled, P, v);
      ReportedSettled(g, origin, W, P, settled, dist, P[v]);
      WalkReaches(g, origin, v, W[v]);
    }
  }

  /** Every distance left is the weight of a walk from the origin; an erased
      one was a walk of weight `NO_WEIGHT` or `INT_MAX`. */
  lemma DoneWalks(g: Graph, origin: Label, W: WeightMap, P: PrevMap, settled: set<Label>, dist: WeightMap)
    requires InvShape(g, origin, W, P, settled) && InvParents(g, W, P, settled)
    requires InvReached(origin, W, P) && InvWalks(g, origin, W, P)
    requires Cleaned(g, W, dist)
    ensures forall v :: v in dist ==> WalkOfWeight(g, origin, v, dist[v])
    ensures forall v :: v in P && v !in dist ==>
              WalkOfWeight(g, origin, v, NoWeight) || WalkOfWeight(g, origin, v, IntMax)
  {
    forall v | v in dist
      ensures WalkOfWeight(g, origin, v, dist[v])
    {
      assert v in P;
    }
    forall v | v in P && v !in dist
      ensures WalkOfWeight(g, origin, v, NoWeight) || WalkOfWeight(g, origin, v, IntMax)
    {
      assert Parented(g, W, settled, P, v);
    }
  }

  /** Without negative edges every vertex other than the origin reached by a
      walk cheaper than `INT_MAX` has a predecessor, and the distance read
      for it is no more than the walk's weight. */
  lemma DoneShortest(g: Graph, origin: Label, W: WeightMap, P: PrevMap, settled: set<Label>, dist: WeightMap)
    requires NonNegative(g) && InvShape(g, origin, W, P, settled) && InvReached(origin, W, P)
    requires Bridged(g, W, settled) && SettledOptimal(g, origin, W, settled) && NoneBelow(W, settled)
    requires Cleaned(g, W, dist)
    ensures forall p :: IsPath(g, p) && p[0] == origin && p[|p| - 1] != origin && PathWeight(g, p) < IntMax ==>
              p[|p| - 1] in P && Reported(dist, p[|p| - 1]) <= PathWeight(g, p)
  {
    DoneOptimal(g, origin, W, settled);
    forall p | IsPath(g, p) && p[0] == origin && p[|p| - 1] != origin && PathWeight(g, p) < IntMax
      ensures p[|p| - 1] in P && Reported(dist, p[|p| - 1]) <= PathWeight(g, p)
    {
      ReportedSettled(g, origin, W, P, settled, dist, p[|p| - 1]);
    }
  }

  /** Without negative edges a vertex other than the origin reached by a
      walk cheaper than `INT_MAX` keeps its distance entry, unless a walk of
      weight 0 reaches it (an entry at 0 is erased). */
  lemma DoneComplete(g: Graph, origin: Label, W: WeightMap, P: PrevMap, settled: set<Label>, dist: WeightMap)
    requires NonNegative(g) && InvShape(g, origin, W, P, settled) && InvReached(origin, W, P)
    requires InvWalks(g, origin, W, P)
    requires Bridged(g, W, settled) && SettledOptimal(g, origin, W, settled) && NoneBelow(W, settled)
    requires Cleaned(g, W, dist)
    ensures forall p :: IsPath(g, p) && p[0] == origin && p[|p| - 1] != origin && PathWeight(g, p) < IntMax ==>
              p[|p| - 1] in dist || WalkOfWeight(g, origin, p[|p| - 1], NoWeight)
  {
    DoneOptimal(g, origin, W, settled);
    forall p | IsPath(g, p) && p[0] == origin && p[|p| - 1] != origin && PathWeight(g, p) < IntMax
      ensures p[|p| - 1] in dist || WalkOfWeight(g, origin, p[|p| - 1], NoWeight)
    {
      var v := p[|p| - 1];
      assert v in P && v in W;
      assert WalkOfWeight(g, origin, v, W[v]);
    }
  }

  /** The loop of `dijkstra` (graph.cpp:559-579): settle the vertex
      `nextSmallest` picks, relax its edges, and stop when it finds none.
      The invariant survives, and at the end no unsettled distance is below
      `INT_MAX`. */
  method SettleAll(g: Graph, origin: Label, W0: WeightMap, P0: PrevMap, settled0: set<Label>)
    returns (W: WeightMap, P: PrevMap, settled: set<Label>)
    requires Loopless(g) && DijkstraInv(g, origin, W0, P0, settled0)
    ensures DijkstraInv(g, origin, W, P, settled) && NoneBelow(W, settled)
    ensures settled0 <= settled
  {
    W, P, settled := W0, P0, settled0;
    var next := NextSmallest(W, settled);
    while next.Some?
      invariant DijkstraInv(g, origin, W, P, settled)
      invariant Chosen(W, settled, next)
      invariant settled0 <= settled
      decreases |g.adj.Keys - settled|
    {
      var x := next.value;
      var W', P' := Relax(g, x, settled, W, P);
      DijkstraKeeps(g, origin, W, P, settled, x, W', P');
      MarkShrinks(g.adj.Keys, settled, x);
      W, P, settled := W', P', settled + {x};
      next := NextSmallest(W, settled);
    }
  }

  /** What the caller holds after `Dijkstra`, read off the final state. */
  lemma DijkstraDone(g: Graph, origin: Label, W: WeightMap, P: PrevMap, settled: set<Label>,
                     dist: WeightMap, prev: PrevMap)
    requires DijkstraInv(g, origin, W, P, settled) && NoneBelow(W, settled)
    requires Cleaned(g, W, dist) && prev == P
    ensures origin !in dist && origin !in prev
    ensures forall v :: v in dist ==> v in prev && dist[v] != NoWeight && dist[v] != IntMax
    ensures forall v :: v in prev ==> HasEdge(g, prev[v], v) && Reachable(g, origin, v)
    ensures forall v :: v in dist ==> dist[v] == Reported(dist, prev[v]) + EdgeWeight(g, prev[v], v)
    ensures forall v :: v in dist ==> WalkOfWeight(g, origin, v, dist[v])
    ensures forall v :: v in prev && v !in dist ==>
              WalkOfWeight(g, origin, v, NoWeight) || WalkOfWeight(g, origin, v, IntMax)
    ensures NonNegative(g) ==>
              forall p :: IsPath(g, p) && p[0] == origin && p[|p| - 1] != origin && PathWeight(g, p) < IntMax ==>
                p[|p| - 1] in prev && Reported(dist, p[|p| - 1]) <= PathWeight(g, p)
    ensures NonNegative(g) ==>
              forall p :: IsPath(g, p) && p[0] == origin && p[|p| - 1] != origin && PathWeight(g, p) < IntMax ==>
                p[|p| - 1] in dist || WalkOfWeight(g, origin, p[|p| - 1], NoWeight)
  {
    DoneEntries(g, origin, W, P, settled, dist);
    DoneParents(g, origin, W, P, settled, dist);
    DoneWalks(g, origin, W, P, settled, dist);
    if NonNegative(g) {
      DoneShortest(g, origin, W, P, settled, dist);
      DoneComplete(g, origin, W, P, settled, dist);
    }
  }

  /** `Dijkstra` (graph.cpp:278-293) into maps that start empty. The origin
      must be a vertex (`map[label]` would otherwise hand back a null head).
      The distance map holds no entry for the origin and none at 0 or
      `INT_MAX`; every predecessor entry is an edge into a reachable vertex
      and every distance is the predecessor's reported distance plus that
      edge, and the weight of an actual walk from the origin. With no
      negative edge, every vertex other than the origin reachable by a walk
      cheaper than `INT_MAX` has a predecessor and keeps its distance entry
      unless a walk of weight 0 reaches it, and its reported distance is no
      more than the weight of any such walk. Together: the reported distance
      is the weight of the lightest walk. */
  method Dijkstra(g: Graph, origin: Label) returns (dist: WeightMap, prev: PrevMap)
    requires Shaped(g.adj) && origin in g.adj
    ensures origin !in dist && origin !in prev
    ensures forall v :: v in dist ==> v in prev && dist[v] != NoWeight && dist[v] != IntMax
    ensures forall v :: v in prev ==> HasEdge(g, prev[v], v) && Reachable(g, origin, v)
    ensures forall v :: v in dist ==> dist[v] == Reported(dist, prev[v]) + EdgeWeight(g, prev[v], v)
    ensures forall v :: v in dist ==> WalkOfWeight(g, origin, v, dist[v])
    ensures forall v :: v in prev && v !in dist ==>
              WalkOfWeight(g, origin, v, NoWeight) || WalkOfWeight(g, origin, v, IntMax)
    ensures NonNegative(g) ==>
              forall p :: IsPath(g, p) && p[0] == origin && p[|p| - 1] != origin && PathWeight(g, p) < IntMax ==>
                p[|p| - 1] in prev && Reported(dist, p[|p| - 1]) <= PathWeight(g, p)
    ensures NonNegative(g) ==>
              forall p :: IsPath(g, p) && p[0] == origin && p[|p| - 1] != origin && PathWeight(g, p) < IntMax ==>
                p[|p| - 1] in dist || WalkOfWeight(g, origin, p[|p| - 1], NoWeight)
  {
    var init := InitMaps(g, origin, map[origin := NoWeight], map[]);
    var W, P := init.0, init.1;
    var settled := {origin};
    DijkstraStart(g, origin);
    ShapedSimple(g);
    W, P, settled := SettleAll(g, origin, W, P, settled);
    dist := CleanWeights(g, W);
    prev := P;
    DijkstraDone(g, origin, W, P, settled, dist, prev);
  }
}
