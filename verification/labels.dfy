/** Vertex labels and their ordering.

    A label is a `std::string` in the C++ class; its `operator<` is the
    lexicographic order on characters, which is also the iteration order of
    the `std::map` that holds the vertices. Dafny's `<` on sequences means
    "proper prefix", so the order is defined here from scratch. */
module Labels {

  type Label = string

  /** The "no label" sentinel returned by the depth-first helper when the
      vertex on top of the stack has nothing left to visit. */
  const NoLabel: Label := ""

  /** Lexicographic strict order, as `std::string::operator<`. */
  predicate Less(a: Label, b: Label)
    decreases |a|
  {
    if |a| == 0 then |b| > 0
    else if |b| == 0 then false
    else if a[0] != b[0] then a[0] < b[0]
    else Less(a[1..], b[1..])
  }

  lemma LessIrreflexive(a: Label)
    ensures !Less(a, a)
  {
  }

  lemma LessAsymmetric(a: Label, b: Label)
    ensures !(Less(a, b) && Less(b, a))
    decreases |a|
  {
    if |a| > 0 && |b| > 0 && a[0] == b[0] {
      LessAsymmetric(a[1..], b[1..]);
    }
  }

  lemma LessTransitive(a: Label, b: Label, c: Label)
    requires Less(a, b) && Less(b, c)
    ensures Less(a, c)
    decreases |a|
  {
    if |a| > 0 && a[0] == b[0] && b[0] == c[0] {
      LessTransitive(a[1..], b[1..], c[1..]);
    }
  }

  lemma LessTotal(a: Label, b: Label)
    ensures a == b || Less(a, b) || Less(b, a)
    decreases |a|
  {
    if |a| > 0 && |b| > 0 && a[0] == b[0] {
      LessTotal(a[1..], b[1..]);
      assert a == [a[0]] + a[1..] && b == [b[0]] + b[1..];
    }
  }

  /** `Less` is a strict total order: the facts the rest of the model uses. */
  lemma LessIsStrictTotalOrder()
    ensures forall a: Label :: !Less(a, a)
    ensures forall a: Label, b: Label :: !(Less(a, b) && Less(b, a))
    ensures forall a: Label, b: Label :: a == b || Less(a, b) || Less(b, a)
    ensures forall a: Label, b: Label, c: Label :: Less(a, b) && Less(b, c) ==> Less(a, c)
  {
    forall a: Label { LessIrreflexive(a); }
    forall a: Label, b: Label { LessAsymmetric(a, b); }
    forall a: Label, b: Label { LessTotal(a, b); }
    forall a: Label, b: Label, c: Label | Less(a, b) && Less(b, c) {
      LessTransitive(a, b, c);
    }
  }

  /** `s` is strictly ascending: the order a `std::map` iterates its keys in. */
  ghost predicate Ascending(s: seq<Label>) {
    forall i, j :: 0 <= i < j < |s| ==> Less(s[i], s[j])
  }

  /** No label occurs twice in `s`. */
  ghost predicate Distinct(s: seq<Label>) {
    forall i, j :: 0 <= i < j < |s| ==> s[i] != s[j]
  }

  predicate IsLeast(m: Label, s: set<Label>) {
    m in s && forall x :: x in s && x != m ==> Less(m, x)
  }

  lemma LeastExists(s: set<Label>)
    requires s != {}
    ensures exists m :: IsLeast(m, s)
    decreases s
  {
    var x :| x in s;
    if s == {x} {
      assert IsLeast(x, s);
    } else {
      LeastExists(s - {x});
      var m :| IsLeast(m, s - {x});
      LessTotal(m, x);
      if Less(m, x) {
        assert IsLeast(m, s);
      } else {
        forall y | y in s && y != x
          ensures Less(x, y)
        {
          if y != m {
            LessTransitive(x, m, y);
          }
        }
        assert IsLeast(x, s);
      }
    }
  }

  lemma LeastUnique(s: set<Label>)
    ensures forall m, m' :: IsLeast(m, s) && IsLeast(m', s) ==> m == m'
  {
    forall m, m' | IsLeast(m, s) && IsLeast(m', s)
      ensures m == m'
    {
      LessAsymmetric(m, m');
    }
  }

  /** The keys of a `std::map` in iteration order: the least key, then the
      rest in order. That the result ascends is `SortedLabelsAscending`. */
  function SortedLabels(s: set<Label>): (r: seq<Label>)
    ensures |r| == |s|
    ensures forall x :: x in r <==> x in s
    ensures Distinct(r)
    decreases s
  {
    if s == {} then []
    else
      LeastExists(s);
      LeastUnique(s);
      var m :| IsLeast(m, s);
      var rest := SortedLabels(s - {m});
      assert forall i :: 0 <= i < |rest| ==> rest[i] in s - {m};
      [m] + rest
  }

  /** The first key is the least one and the others follow in order. */
  lemma SortedLabelsHead(s: set<Label>)
    requires s != {}
    ensures IsLeast(SortedLabels(s)[0], s)
    ensures SortedLabels(s)[1..] == SortedLabels(s - {SortedLabels(s)[0]})
  {
    LeastExists(s);
  }

  /** The map order ascends strictly. */
  lemma {:induction false} SortedLabelsAscending(s: set<Label>)
    ensures Ascending(SortedLabels(s))
    decreases s
  {
    if s != {} {
      var r := SortedLabels(s);
      SortedLabelsHead(s);
      SortedLabelsAscending(s - {r[0]});
      forall i, j | 0 <= i < j < |r|
        ensures Less(r[i], r[j])
      {
        if i == 0 {
          assert r[j] == r[1..][j - 1];
          assert r[j] in s - {r[0]};
        } else {
          assert r[i] == r[1..][i - 1] && r[j] == r[1..][j - 1];
        }
      }
    }
  }

  /** An ascending sequence has no repeated label. */
  lemma AscendingDistinct(s: seq<Label>)
    requires Ascending(s)
    ensures Distinct(s)
  {
    LessIsStrictTotalOrder();
  }

  /** Marking one more label of `keys` leaves fewer unmarked: the variant of
      every marking loop. */
  lemma MarkShrinks(keys: set<Label>, visited: set<Label>, x: Label)
    requires x in keys && x !in visited
    ensures |keys - (visited + {x})| < |keys - visited|
  {
    assert keys - visited == (keys - (visited + {x})) + {x};
  }
}
