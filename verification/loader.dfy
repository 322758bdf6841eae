/** Loading a graph from an edge file (`ReadFile` and `extractFile`,
    graph.cpp:213-228 and 390-405).

    The file holds a count followed by that many records `c1 c2 w`: two
    one-character labels and a weight. Loading first empties the graph, then
    `Connect`s every record in file order. Reading the characters from the
    stream is not modelled: a file is the sequence of its records, and a file
    that cannot be opened is `None`. */
module Loader {

  import opened Labels
  import opened Options
  import Chains
  import opened Graphs

  /** One record of an edge file. */
  datatype Record = Record(source: char, target: char, weight: Chains.Weight)

  /** The one-character label `Label(1, c)` built for each end of a record. */
  function From(r: Record): Label { [r.source] }

  function To(r: Record): Label { [r.target] }

  /** A record whose two ends coincide; `Connect` refuses it. */
  predicate SelfLoop(r: Record) {
    r.source == r.target
  }

  /** `extractFile` (graph.cpp:390-405): the records in order, each
      `Connect`ed onto the graph the earlier ones built, starting from the
      empty graph. Every vertex is a one-character label and each record adds
      at most one edge. */
  function Load(rs: seq<Record>): (g: Graph)
    ensures forall l :: l in g.adj ==> |l| == 1
    ensures 0 <= g.edges <= |rs|
    decreases |rs|
  {
    if |rs| == 0 then Empty
    else
      var r := rs[|rs| - 1];
      Connect(Load(rs[..|rs| - 1]), From(r), To(r), r.weight).0
  }

  /** `ReadFile` (graph.cpp:213-228): `false` and no change when the file
      cannot be opened, otherwise the old contents are discarded and the
      records loaded. */
  function ReadFile(g: Graph, file: Option<seq<Record>>): (r: (Graph, bool))
    ensures r.1 <==> file.Some?
    ensures !r.1 ==> r.0 == g
  {
    match file
    case None => (g, false)
    case Some(rs) => (Load(rs), true)
  }

  /** Some record of `rs` asks for the edge `a -> b` and is not a self-loop. */
  ghost predicate Linked(rs: seq<Record>, a: Label, b: Label) {
    exists i :: 0 <= i < |rs| && !SelfLoop(rs[i]) && From(rs[i]) == a && To(rs[i]) == b
  }

  /** Record `i` is the first to ask for its edge: the one `Connect` keeps. */
  ghost predicate First(rs: seq<Record>, i: int) {
    0 <= i < |rs| && !SelfLoop(rs[i]) && !Linked(rs[..i], From(rs[i]), To(rs[i]))
  }

  /** Positions of the records that add an edge. */
  ghost function FirstIndices(rs: seq<Record>): set<int> {
    set i | 0 <= i < |rs| && First(rs, i)
  }

  /** The edges the records ask for, each with the weight of its first record. */
  ghost function Kept(rs: seq<Record>): set<(Label, Label, Chains.Weight)> {
    set i | i in FirstIndices(rs) :: (From(rs[i]), To(rs[i]), rs[i].weight)
  }

  /** Appending a record keeps the earlier records' status. */
  lemma FirstPrefix(rs: seq<Record>, i: int)
    requires 0 <= i < |rs| - 1
    ensures First(rs, i) <==> First(rs[..|rs| - 1], i)
  {
    assert rs[..|rs| - 1][..i] == rs[..i];
  }

  lemma FirstStep(rs: seq<Record>)
    requires |rs| > 0
    ensures var n := |rs| - 1;
            FirstIndices(rs) == FirstIndices(rs[..n]) + (if First(rs, n) then {n} else {})
  {
    var n := |rs| - 1;
    forall i | 0 <= i < n
      ensures First(rs, i) <==> First(rs[..n], i)
    {
      FirstPrefix(rs, i);
    }
  }

  lemma KeptStep(rs: seq<Record>)
    requires |rs| > 0
    ensures var n := |rs| - 1;
            var r := rs[n];
            Kept(rs) == Kept(rs[..n]) + (if First(rs, n) then {(From(r), To(r), r.weight)} else {})
  {
    var n := |rs| - 1;
    FirstStep(rs);
    assert forall i :: 0 <= i < n ==> rs[..n][i] == rs[i];
  }

  lemma LinkedStep(rs: seq<Record>, a: Label, b: Label)
    requires |rs| > 0
    ensures var n := |rs| - 1;
            Linked(rs, a, b) <==>
              Linked(rs[..n], a, b) || (!SelfLoop(rs[n]) && From(rs[n]) == a && To(rs[n]) == b)
  {
    var n := |rs| - 1;
    if Linked(rs, a, b) {
      var i :| 0 <= i < |rs| && !SelfLoop(rs[i]) && From(rs[i]) == a && To(rs[i]) == b;
      if i < n {
        assert rs[..n][i] == rs[i];
      }
    }
    if Linked(rs[..n], a, b) {
      var i :| 0 <= i < n && !SelfLoop(rs[..n][i]) && From(rs[..n][i]) == a && To(rs[..n][i]) == b;
      assert rs[i] == rs[..n][i];
    }
  }

  /** Connecting one more record onto a graph that holds exactly the edges
      `init` asks for: the record's edge is added exactly when it is the
      first to ask for it. */
  lemma ConnectRecord(g0: Graph, init: seq<Record>, r: Record)
    requires Valid(g0) && EdgeSet(g0) == Kept(init)
    requires HasEdge(g0, From(r), To(r)) <==> Linked(init, From(r), To(r))
    ensures var c := Connect(g0, From(r), To(r), r.weight);
            var rs := init + [r];
            && Valid(c.0)
            && (c.1 <==> First(rs, |init|))
            && EdgeSet(c.0) == Kept(rs)
            && c.0.edges == g0.edges + (if First(rs, |init|) then 1 else 0)
  {
    var rs := init + [r];
    assert rs[..|init|] == init;
    ConnectKeepsValid(g0, From(r), To(r), r.weight);
    KeptStep(rs);
  }

  /** After that step an edge is present exactly when some record, the new
      one included, asks for it. */
  lemma ConnectRecordLinks(g0: Graph, init: seq<Record>, r: Record, a: Label, b: Label)
    requires HasEdge(g0, a, b) <==> Linked(init, a, b)
    ensures HasEdge(Connect(g0, From(r), To(r), r.weight).0, a, b) <==> Linked(init + [r], a, b)
  {
    var rs := init + [r];
    assert rs[..|init|] == init;
    ConnectHasEdge(g0, From(r), To(r), r.weight, a, b);
    LinkedStep(rs, a, b);
  }

  /** Loading always yields a valid graph whose edges are the non-self-loop
      records that first ask for them, each with that record's weight; an
      edge is present exactly when some record asks for it, and the edge
      counter is the number of such first records. */
  lemma {:induction false} LoadFacts(rs: seq<Record>)
    ensures Valid(Load(rs))
    ensures EdgeSet(Load(rs)) == Kept(rs)
    ensures forall a, b :: HasEdge(Load(rs), a, b) <==> Linked(rs, a, b)
    ensures NumberOfEdges(Load(rs)) == |FirstIndices(rs)|
    decreases |rs|
  {
    if |rs| == 0 {
      EmptyValid();
      assert FirstIndices(rs) == {};
    } else {
      var n := |rs| - 1;
      var init := rs[..n];
      var r := rs[n];
      assert rs == init + [r];
      LoadFacts(init);
      ConnectRecord(Load(init), init, r);
      forall a, b
        ensures HasEdge(Load(rs), a, b) <==> Linked(rs, a, b)
      {
        ConnectRecordLinks(Load(init), init, r, a, b);
      }
      FirstStep(rs);
    }
  }

  /** Some record that is not a self-loop has `l` as one of its ends. */
  ghost predicate End(rs: seq<Record>, l: Label) {
    exists i :: 0 <= i < |rs| && !SelfLoop(rs[i]) && (l == From(rs[i]) || l == To(rs[i]))
  }

  lemma EndStep(init: seq<Record>, r: Record, l: Label)
    ensures End(init + [r], l) <==> End(init, l) || (!SelfLoop(r) && (l == From(r) || l == To(r)))
  {
    var rs := init + [r];
    if End(rs, l) {
      var i :| 0 <= i < |rs| && !SelfLoop(rs[i]) && (l == From(rs[i]) || l == To(rs[i]));
      if i < |init| {
        assert rs[i] == init[i];
      }
    }
    if End(init, l) {
      var i :| 0 <= i < |init| && !SelfLoop(init[i]) && (l == From(init[i]) || l == To(init[i]));
      assert rs[i] == init[i];
    }
    if !SelfLoop(r) && (l == From(r) || l == To(r)) {
      assert rs[|init|] == r;
    }
  }

  /** The vertices after loading are exactly the ends of the records that
      are not self-loops. */
  lemma {:induction false} LoadVertices(rs: seq<Record>)
    ensures forall l :: l in Load(rs).adj <==> End(rs, l)
    decreases |rs|
  {
    if |rs| > 0 {
      var n := |rs| - 1;
      var init := rs[..n];
      var r := rs[n];
      assert rs == init + [r];
      LoadVertices(init);
      forall l
        ensures l in Load(rs).adj <==> End(rs, l)
      {
        EndStep(init, r, l);
      }
    }
  }

  /** A file that opens replaces the graph whatever it held before. */
  lemma ReadFileReplaces(g: Graph, rs: seq<Record>)
    ensures var r := ReadFile(g, Some(rs));
            && r.1
            && Valid(r.0)
            && EdgeSet(r.0) == Kept(rs)
            && r.0.adj.Keys == Load(rs).adj.Keys
  {
    LoadFacts(rs);
  }
}
