/** The adjacency chain of one vertex (`Graph::Vertex` in graph.h:196-330).

    In graph.h a head node carries the vertex's out-degree counter and
    owns a singly-linked list of edge nodes, each holding a target label and a
    weight, kept in ascending target order. Here the list is an owned sequence
    and the head is `Vertex(chain, degree)`. The pointer walks of
    graph.cpp become recursions over the sequence, one step per node. The
    head's `visited` flag is not part of this datatype: the traversals carry
    their own visited set. */
module Chains {

  import opened Labels
  import opened Options
  import opened Text

  type Weight = int

  datatype Edge = Edge(target: Label, weight: Weight)

  datatype Vertex = Vertex(chain: seq<Edge>, degree: int)

  /** A head node with no edges, as `new Vertex()` builds it (graph.cpp:122). */
  const Fresh: Vertex := Vertex([], 0)

  /** The target labels along a chain. */
  function Targets(c: seq<Edge>): set<Label> {
    if |c| == 0 then {} else {c[0].target} + Targets(c[1..])
  }

  /** Every node's target is below every later node's: ascending and free of
      duplicates. */
  ghost predicate Sorted(c: seq<Edge>) {
    |c| == 0 || ((forall x :: x in Targets(c[1..]) ==> Less(c[0].target, x)) && Sorted(c[1..]))
  }

  /** The head-node invariant: the chain is sorted and the counter is its length. */
  ghost predicate WellFormed(v: Vertex) {
    Sorted(v.chain) && v.degree == |v.chain|
  }

  /** Sum of the weights along a chain. */
  function ChainWeight(c: seq<Edge>): int {
    if |c| == 0 then 0 else c[0].weight + ChainWeight(c[1..])
  }

  lemma {:induction false} ChainWeightAppend(a: seq<Edge>, b: seq<Edge>)
    ensures ChainWeight(a + b) == ChainWeight(a) + ChainWeight(b)
  {
    if |a| > 0 {
      assert (a + b)[1..] == a[1..] + b;
      ChainWeightAppend(a[1..], b);
    } else {
      assert a + b == b;
    }
  }

  lemma {:induction false} TargetsMembers(c: seq<Edge>)
    ensures forall e :: e in c ==> e.target in Targets(c)
    ensures forall t :: t in Targets(c) ==> exists e :: e in c && e.target == t
  {
    if |c| > 0 {
      TargetsMembers(c[1..]);
      assert forall e :: e in c ==> e == c[0] || e in c[1..];
    }
  }

  lemma {:induction false} TargetsIndex(c: seq<Edge>, t: Label)
    ensures t in Targets(c) <==> exists i :: 0 <= i < |c| && c[i].target == t
  {
    if |c| > 0 {
      TargetsIndex(c[1..], t);
      if t in Targets(c[1..]) {
        var i :| 0 <= i < |c[1..]| && c[1..][i].target == t;
        assert c[i + 1].target == t;
      }
      if exists i :: 0 <= i < |c| && c[i].target == t {
        var i :| 0 <= i < |c| && c[i].target == t;
        if i > 0 {
          assert c[1..][i - 1].target == t;
        }
      }
    }
  }

  /** In a sorted chain every node is below all nodes after it. */
  lemma {:induction false} SortedPairs(c: seq<Edge>, i: int, j: int)
    requires Sorted(c) && 0 <= i < j < |c|
    ensures Less(c[i].target, c[j].target)
  {
    if i == 0 {
      TargetsIndex(c[1..], c[j].target);
      assert c[1..][j - 1].target == c[j].target;
    } else {
      SortedPairs(c[1..], i - 1, j - 1);
    }
  }

  /** A label below the first node of a sorted chain is below all of them. */
  lemma {:induction false} BelowSorted(t: Label, c: seq<Edge>)
    requires Sorted(c) && |c| > 0 && Less(t, c[0].target)
    ensures forall x :: x in Targets(c) ==> Less(t, x)
  {
    forall x | x in Targets(c)
      ensures Less(t, x)
    {
      if x != c[0].target {
        LessTransitive(t, c[0].target, x);
      }
    }
  }

  /** The insertion walk of `Vertex::connect` (graph.cpp:852-875): step past
      nodes whose target is below `t`, then link a new node in front of the
      stopping node unless that node already has target `t`. `None` means the
      edge was refused. */
  function InsertChain(c: seq<Edge>, t: Label, w: Weight): (r: Option<seq<Edge>>)
    ensures r.None? ==> t in Targets(c)
    ensures r.Some? ==> |r.value| == |c| + 1
    ensures r.Some? ==> Targets(r.value) == Targets(c) + {t}
    ensures r.Some? ==> multiset(r.value) == multiset(c) + multiset{Edge(t, w)}
    ensures r.Some? ==> ChainWeight(r.value) == ChainWeight(c) + w
  {
    if |c| == 0 then
      Some([Edge(t, w)])
    else if Less(c[0].target, t) then
      match InsertChain(c[1..], t, w)
      case None => None
      case Some(rest) =>
        ConsFacts(c, rest);
        Some([c[0]] + rest)
    else if c[0].target != t then
      var r := [Edge(t, w)] + c;
      assert r[1..] == c;
      Some(r)
    else
      None
  }

  lemma ConsFacts(c: seq<Edge>, rest: seq<Edge>)
    requires |c| > 0
    ensures multiset(c) == multiset{c[0]} + multiset(c[1..])
    ensures ([c[0]] + rest)[1..] == rest
    ensures ([c[0]] + rest)[0] == c[0]
  {
    assert c == [c[0]] + c[1..];
  }

  /** On a sorted chain the insertion refuses exactly a target already
      present and keeps the chain sorted. */
  lemma {:induction false} InsertChainSorted(c: seq<Edge>, t: Label, w: Weight)
    requires Sorted(c)
    ensures InsertChain(c, t, w).Some? <==> t !in Targets(c)
    ensures InsertChain(c, t, w).Some? ==> Sorted(InsertChain(c, t, w).value)
  {
    if |c| > 0 {
      var r := InsertChain(c, t, w);
      if Less(c[0].target, t) {
        InsertChainSorted(c[1..], t, w);
        LessIrreflexive(t);
        if r.Some? {
          var rest := InsertChain(c[1..], t, w).value;
          assert r.value[1..] == rest;
        }
      } else if c[0].target != t {
        assert r.value[1..] == c;
        LessTotal(t, c[0].target);
        BelowSorted(t, c);
        LessIrreflexive(t);
      }
    }
  }

  /** What the multiset of a chain says about its members. */
  lemma MembersOfMultiset(r: seq<Edge>, c: seq<Edge>, e: Edge)
    requires multiset(r) == multiset(c) + multiset{e}
    ensures forall x :: x in r <==> x in c || x == e
  {
    forall x
      ensures x in r <==> x in c || x == e
    {
      assert x in r <==> x in multiset(r);
      assert x in c <==> x in multiset(c);
    }
  }

  /** `Vertex::connect`: the insertion walk plus the head's counter. */
  function Connect(v: Vertex, t: Label, w: Weight): (r: (Vertex, bool))
    ensures !r.1 ==> r.0 == v
    ensures !r.1 ==> t in Targets(v.chain)
    ensures r.1 ==> r.0.degree == v.degree + 1 && |r.0.chain| == |v.chain| + 1
    ensures r.1 ==> multiset(r.0.chain) == multiset(v.chain) + multiset{Edge(t, w)}
    ensures r.1 ==> forall e :: e in r.0.chain <==> e in v.chain || e == Edge(t, w)
    ensures r.1 ==> Targets(r.0.chain) == Targets(v.chain) + {t}
    ensures r.1 ==> ChainWeight(r.0.chain) == ChainWeight(v.chain) + w
    ensures Sorted(v.chain) ==> (r.1 <==> t !in Targets(v.chain))
    ensures Sorted(v.chain) ==> Sorted(r.0.chain)
  {
    assert Sorted(v.chain) ==>
             && (InsertChain(v.chain, t, w).Some? <==> t !in Targets(v.chain))
             && (InsertChain(v.chain, t, w).Some? ==> Sorted(InsertChain(v.chain, t, w).value)) by {
      if Sorted(v.chain) { InsertChainSorted(v.chain, t, w); }
    }
    match InsertChain(v.chain, t, w)
    case None => (v, false)
    case Some(c) =>
      MembersOfMultiset(c, v.chain, Edge(t, w));
      (Vertex(c, v.degree + 1), true)
  }

  /** The walk of `Vertex::getAdjacent` (graph.cpp:915-925): the weight of the
      first node whose target is `t`. */
  function Adjacent(c: seq<Edge>, t: Label): (r: Option<Weight>)
    ensures r.Some? <==> t in Targets(c)
    ensures r.Some? ==> Edge(t, r.value) in c
    ensures Sorted(c) ==> forall w :: Edge(t, w) in c ==> r == Some(w)
  {
    if |c| == 0 then None
    else if c[0].target == t then
      assert Sorted(c) ==> forall w :: Edge(t, w) in c ==> w == c[0].weight by {
        if Sorted(c) {
          TargetsMembers(c[1..]);
          LessIrreflexive(t);
          assert forall e :: e in c ==> e == c[0] || e in c[1..];
        }
      }
      Some(c[0].weight)
    else
      var r := Adjacent(c[1..], t);
      assert forall e :: e in c ==> e == c[0] || e in c[1..];
      r
  }

  /** The walk of `Vertex::disconnect` (graph.cpp:882-907): unlink the first
      node whose target is `t`; `None` when there is none. */
  function UnlinkChain(c: seq<Edge>, t: Label): (r: Option<seq<Edge>>)
    ensures r.Some? <==> t in Targets(c)
    ensures r.Some? ==> |r.value| == |c| - 1
    ensures r.Some? ==> multiset(c) == multiset(r.value) + multiset{Edge(t, Adjacent(c, t).value)}
    ensures r.Some? ==> ChainWeight(r.value) == ChainWeight(c) - Adjacent(c, t).value
  {
    if |c| == 0 then None
    else if c[0].target == t then
      ConsFacts(c, c[1..]);
      Some(c[1..])
    else
      match UnlinkChain(c[1..], t)
      case None => None
      case Some(rest) =>
        ConsFacts(c, rest);
        Some([c[0]] + rest)
  }

  /** On a sorted chain the unlink keeps the chain sorted and removes its
      only node with target `t`. */
  lemma {:induction false} UnlinkChainSorted(c: seq<Edge>, t: Label)
    requires Sorted(c) && t in Targets(c)
    ensures Sorted(UnlinkChain(c, t).value)
    ensures Targets(UnlinkChain(c, t).value) == Targets(c) - {t}
  {
    var r := UnlinkChain(c, t).value;
    if c[0].target == t {
      LessIrreflexive(t);
    } else {
      UnlinkChainSorted(c[1..], t);
      assert r[1..] == UnlinkChain(c[1..], t).value;
    }
  }

  /** What the multiset of a chain says about its members, when the removed
      node is not repeated. */
  lemma MembersAfterUnlink(r: seq<Edge>, c: seq<Edge>, e: Edge)
    requires multiset(c) == multiset(r) + multiset{e}
    requires e.target !in Targets(r)
    ensures forall x :: x in r ==> x in c
    ensures forall x :: x in r <==> x in c && x != e
  {
    TargetsMembers(r);
    forall x
      ensures x in r <==> x in c && x != e
    {
      assert x in r <==> x in multiset(r);
      assert x in c <==> x in multiset(c);
    }
  }

  /** `Vertex::disconnect`: the unlink walk plus the head's counter. */
  function Disconnect(v: Vertex, t: Label): (r: (Vertex, bool))
    ensures r.1 <==> t in Targets(v.chain)
    ensures !r.1 ==> r.0 == v
    ensures r.1 ==> r.0.degree == v.degree - 1 && |r.0.chain| == |v.chain| - 1
    ensures r.1 ==> multiset(v.chain) == multiset(r.0.chain) + multiset{Edge(t, Adjacent(v.chain, t).value)}
    ensures r.1 ==> ChainWeight(r.0.chain) == ChainWeight(v.chain) - Adjacent(v.chain, t).value
    ensures Sorted(v.chain) ==> Sorted(r.0.chain)
    ensures Sorted(v.chain) ==> Targets(r.0.chain) == Targets(v.chain) - {t}
    ensures Sorted(v.chain) && r.1 ==>
              forall e :: e in r.0.chain <==> e in v.chain && e != Edge(t, Adjacent(v.chain, t).value)
  {
    match UnlinkChain(v.chain, t)
    case None => (v, false)
    case Some(c) =>
      assert Sorted(v.chain) ==>
               && Sorted(c)
               && Targets(c) == Targets(v.chain) - {t}
               && forall e :: e in c <==> e in v.chain && e != Edge(t, Adjacent(v.chain, t).value) by {
        if Sorted(v.chain) {
          UnlinkChainSorted(v.chain, t);
          MembersAfterUnlink(c, v.chain, Edge(t, Adjacent(v.chain, t).value));
        }
      }
      (Vertex(c, v.degree - 1), true)
  }

  /** `Vertex::toString` of an edge node: `target(weight)`. */
  function EdgeText(e: Edge): string {
    e.target + "(" + IntText(e.weight) + ")"
  }

  /** `Vertex::getEdges`: the edge nodes joined by commas, in chain order. */
  function ChainText(c: seq<Edge>): string {
    if |c| == 0 then ""
    else if |c| == 1 then EdgeText(c[0])
    else EdgeText(c[0]) + "," + ChainText(c[1..])
  }

  /** Joining two non-empty chains puts exactly one comma between their texts. */
  lemma {:induction false} ChainTextAppend(a: seq<Edge>, b: seq<Edge>)
    requires |a| > 0 && |b| > 0
    ensures ChainText(a + b) == ChainText(a) + "," + ChainText(b)
  {
    if |a| > 1 {
      assert (a + b)[1..] == a[1..] + b;
      ChainTextAppend(a[1..], b);
    } else {
      assert (a + b)[1..] == b;
    }
  }

  /** The number of times `ch` occurs in `s`. */
  function Occurrences(s: string, ch: char): nat
    decreases |s|
  {
    if |s| == 0 then 0
    else Occurrences(s[..|s| - 1], ch) + (if s[|s| - 1] == ch then 1 else 0)
  }

  lemma {:induction false} OccurrencesAppend(a: string, b: string, ch: char)
    ensures Occurrences(a + b, ch) == Occurrences(a, ch) + Occurrences(b, ch)
    decreases |b|
  {
    if |b| == 0 {
      assert a + b == a;
    } else {
      assert (a + b)[..|a + b| - 1] == a + b[..|b| - 1];
      OccurrencesAppend(a, b[..|b| - 1], ch);
    }
  }

  lemma {:induction false} OccurrencesNone(s: string, ch: char)
    requires forall k :: 0 <= k < |s| ==> s[k] != ch
    ensures Occurrences(s, ch) == 0
    decreases |s|
  {
    if |s| > 0 {
      OccurrencesNone(s[..|s| - 1], ch);
    }
  }

  /** The label has no comma, the separator of an edge list. */
  predicate NoComma(l: Label) {
    forall k :: 0 <= k < |l| ==> l[k] != ','
  }

  /** The text of one edge holds no comma when its target holds none. */
  lemma EdgeTextNoComma(e: Edge)
    requires NoComma(e.target)
    ensures Occurrences(EdgeText(e), ',') == 0
  {
    IntTextHasNoSeparators(e.weight);
    OccurrencesNone(e.target, ',');
    OccurrencesNone("(", ',');
    OccurrencesNone(IntText(e.weight), ',');
    OccurrencesNone(")", ',');
    OccurrencesAppend(e.target, "(", ',');
    OccurrencesAppend(e.target + "(", IntText(e.weight), ',');
    OccurrencesAppend(e.target + "(" + IntText(e.weight), ")", ',');
  }

  /** A chain text lists one entry per edge: with comma-free targets it holds
      exactly one comma fewer than the chain has edges. */
  lemma {:induction false} ChainTextCommas(c: seq<Edge>)
    requires |c| > 0
    requires forall i :: 0 <= i < |c| ==> NoComma(c[i].target)
    ensures Occurrences(ChainText(c), ',') + 1 == |c|
    decreases |c|
  {
    EdgeTextNoComma(c[0]);
    if |c| > 1 {
      ChainTextCommas(c[1..]);
      assert Occurrences(",", ',') == 1 by {
        assert ","[..0] == "";
      }
      OccurrencesAppend(EdgeText(c[0]), ",", ',');
      OccurrencesAppend(EdgeText(c[0]) + ",", ChainText(c[1..]), ',');
    }
  }

  /** A label the edge-list syntax can carry: it holds no comma and no
      opening parenthesis. */
  predicate Plain(l: Label) {
    forall k :: 0 <= k < |l| ==> l[k] != ',' && l[k] != '('
  }

  /** The first position of `ch` in `s`, if any. */
  function IndexOf(s: string, ch: char): (r: Option<nat>)
    ensures r.Some? ==> r.value < |s| && s[r.value] == ch
    ensures r.Some? ==> forall k :: 0 <= k < r.value ==> s[k] != ch
    ensures r.None? ==> forall k :: 0 <= k < |s| ==> s[k] != ch
    decreases |s|
  {
    if |s| == 0 then None
    else if s[0] == ch then Some(0)
    else
      match IndexOf(s[1..], ch)
      case None => None
      case Some(k) => Some(k + 1)
  }

  /** Reads one `target(weight)` entry of an edge list. */
  function ParseEdge(s: string): Option<Edge> {
    match IndexOf(s, '(')
    case None => None
    case Some(k) =>
      if k + 2 <= |s| && s[|s| - 1] == ')' then
        (match ParseInt(s[k + 1..|s| - 1])
         case None => None
         case Some(w) => Some(Edge(s[..k], w)))
      else None
  }

  /** Reads one or more comma-separated entries. */
  function ParseEntries(s: string): Option<seq<Edge>>
    decreases |s|
  {
    match IndexOf(s, ',')
    case None =>
      (match ParseEdge(s)
       case None => None
       case Some(e) => Some([e]))
    case Some(k) =>
      (match ParseEdge(s[..k])
       case None => None
       case Some(e) =>
         (match ParseEntries(s[k + 1..])
          case None => None
          case Some(rest) => Some([e] + rest)))
  }

  /** Reads a `getEdges` text back into its chain; the empty text is the
      empty chain. */
  function ParseChainText(s: string): Option<seq<Edge>> {
    if |s| == 0 then Some([]) else ParseEntries(s)
  }

  /** The text of one edge is non-empty, holds no comma, and reads back as
      that edge. */
  lemma EdgeTextRoundTrip(e: Edge)
    requires Plain(e.target)
    ensures |EdgeText(e)| > 0
    ensures forall k :: 0 <= k < |EdgeText(e)| ==> EdgeText(e)[k] != ','
    ensures ParseEdge(EdgeText(e)) == Some(e)
  {
    var t := e.target;
    var w := IntText(e.weight);
    var s := EdgeText(e);
    IntTextHasNoSeparators(e.weight);
    assert s == t + "(" + w + ")";
    assert s[|t|] == '(';
    assert forall k :: 0 <= k < |t| ==> s[k] == t[k];
    assert forall k :: 0 <= k < |w| ==> s[|t| + 1 + k] == w[k];
    assert IndexOf(s, '(') == Some(|t|);
    assert s[|t| + 1..|s| - 1] == w;
    assert s[..|t|] == t;
  }

  /** Splitting `x + "," + y` at its first comma gives back `x` and `y`
      when `x` holds no comma. */
  lemma SplitAtComma(x: string, y: string)
    requires forall k :: 0 <= k < |x| ==> x[k] != ','
    ensures IndexOf(x + "," + y, ',') == Some(|x|)
    ensures (x + "," + y)[..|x|] == x && (x + "," + y)[|x| + 1..] == y
  {
    var s := x + "," + y;
    assert s[|x|] == ',';
    assert forall k :: 0 <= k < |x| ==> s[k] == x[k];
  }

  /** A non-empty chain with plain targets reads back from its text. */
  lemma {:induction false} EntriesRoundTrip(c: seq<Edge>)
    requires |c| > 0
    requires forall i :: 0 <= i < |c| ==> Plain(c[i].target)
    ensures ParseEntries(ChainText(c)) == Some(c)
    decreases |c|
  {
    var e := c[0];
    EdgeTextRoundTrip(e);
    if |c| == 1 {
      assert ChainText(c) == EdgeText(e);
      assert IndexOf(EdgeText(e), ',') == None;
      assert ParseEntries(EdgeText(e)) == Some([e]);
      assert [e] == c;
    } else {
      var rest := c[1..];
      EntriesRoundTrip(rest);
      assert ChainText(c) == EdgeText(e) + "," + ChainText(rest);
      SplitAtComma(EdgeText(e), ChainText(rest));
      assert [e] + rest == c;
    }
  }

  /** `getEdges` loses nothing: with plain targets its text reads back as
      the chain, in chain order. */
  lemma ChainTextRoundTrip(c: seq<Edge>)
    requires forall i :: 0 <= i < |c| ==> Plain(c[i].target)
    ensures ParseChainText(ChainText(c)) == Some(c)
  {
    if |c| > 0 {
      EntriesRoundTrip(c);
      assert |ChainText(c)| > 0 by { EdgeTextRoundTrip(c[0]); }
    }
  }
}
