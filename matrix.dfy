/**
 The traceability matrix: a square table over the node identifiers in
 ascending string order whose cell (source, target) says whether target is
 the source itself or a direct successor, is reachable only through longer
 paths, or is not reachable at all.
 */
module Traceability {
  import opened Graph
  import Reachability

  /** Heat-map cell values 1, 0.5 and 0. */
  datatype Cell = Direct | Indirect | NoConnection

  /** String order: lexicographic by character code, a proper prefix first. */
  predicate StrLess(a: string, b: string)
    decreases |a|
  {
    if |a| == 0 then |b| > 0
    else if |b| == 0 then false
    else if a[0] != b[0] then a[0] < b[0]
    else StrLess(a[1..], b[1..])
  }

  predicate StrLessEq(a: string, b: string) {
    a == b || StrLess(a, b)
  }

  lemma {:induction false} StrLessTransitive(a: string, b: string, c: string)
    requires StrLess(a, b) && StrLess(b, c)
    ensures StrLess(a, c)
    decreases |a|
  {
    if |a| > 0 && a[0] == b[0] && b[0] == c[0] {
      StrLessTransitive(a[1..], b[1..], c[1..]);
    }
  }

  /** Any two different strings are ordered one way or the other. */
  lemma {:induction false} StrLessTotal(a: string, b: string)
    requires a != b
    ensures StrLess(a, b) || StrLess(b, a)
    decreases |a|
  {
    if |a| > 0 && |b| > 0 && a[0] == b[0] {
      assert a == [a[0]] + a[1..] && b == [b[0]] + b[1..];
      StrLessTotal(a[1..], b[1..]);
    }
  }

  /** No two strings are each less than the other (so none is less than itself). */
  lemma {:induction false} StrLessAsymmetric(a: string, b: string)
    requires StrLess(a, b)
    ensures !StrLess(b, a)
    decreases |a|
  {
    if |a| > 0 && a[0] == b[0] {
      StrLessAsymmetric(a[1..], b[1..]);
    }
  }

  predicate Sorted(s: seq<string>) {
    forall i, j :: 0 <= i < j < |s| ==> StrLessEq(s[i], s[j])
  }

  lemma SortedTail(s: seq<string>)
    requires Sorted(s) && s != []
    ensures Sorted(s[1..])
  {
    forall i, j | 0 <= i < j < |s| - 1
      ensures StrLessEq(s[1..][i], s[1..][j])
    {
      assert s[1..][i] == s[i + 1] && s[1..][j] == s[j + 1];
    }
  }

  /** The first element of a sorted list is at most each of its elements. */
  lemma SortedHeadIsLeast(s: seq<string>, x: string)
    requires Sorted(s)
    requires x in multiset(s)
    ensures StrLessEq(s[0], x)
  {
    var i :| 0 <= i < |s| && s[i] == x;
    assert i == 0 || StrLessEq(s[0], s[i]);
  }

  /** Two sorted permutations of the same elements start alike. */
  lemma SortedHeadsEqual(a: seq<string>, b: seq<string>)
    requires Sorted(a) && Sorted(b)
    requires multiset(a) == multiset(b)
    requires a != []
    ensures b != [] && a[0] == b[0]
  {
    assert a[0] in multiset(b);
    SortedHeadIsLeast(a, b[0]);
    SortedHeadIsLeast(b, a[0]);
    if a[0] != b[0] {
      StrLessAsymmetric(a[0], b[0]);
      assert false;
    }
  }

  lemma MultisetTail(s: seq<string>)
    requires s != []
    ensures multiset(s[1..]) == multiset(s) - multiset{s[0]}
  {
    assert s == [s[0]] + s[1..];
  }

  /** Two sorted permutations of the same elements are equal: sorting has
      exactly one possible result. */
  lemma {:induction false} SortedPermutationUnique(a: seq<string>, b: seq<string>)
    requires Sorted(a) && Sorted(b)
    requires multiset(a) == multiset(b)
    ensures a == b
    decreases |a|
  {
    if a == [] {
      assert |b| == |multiset(b)| == 0;
    } else {
      SortedHeadsEqual(a, b);
      MultisetTail(a);
      MultisetTail(b);
      SortedTail(a);
      SortedTail(b);
      SortedPermutationUnique(a[1..], b[1..]);
      assert a == [a[0]] + a[1..] && b == [b[0]] + b[1..];
    }
  }

  /** `x` put in front of the first element of `s` that is not less than it. */
  function Insert(s: seq<string>, x: string): (r: seq<string>)
    ensures |r| == |s| + 1
    ensures multiset(r) == multiset(s) + multiset{x}
    decreases |s|
  {
    if s == [] then [x]
    else if StrLess(s[0], x) then
      assert s == [s[0]] + s[1..];
      [s[0]] + Insert(s[1..], x)
    else [x] + s
  }

  lemma {:induction false} InsertSorted(s: seq<string>, x: string)
    requires Sorted(s)
    ensures Sorted(Insert(s, x))
    decreases |s|
  {
    var r := Insert(s, x);
    if s == [] {
    } else if StrLess(s[0], x) {
      InsertSorted(s[1..], x);
      var t := Insert(s[1..], x);
      forall j | 0 <= j < |t|
        ensures StrLessEq(s[0], t[j])
      {
        assert t[j] in multiset(t);
        if t[j] != x {
          assert t[j] in multiset(s[1..]);
          var k :| 0 <= k < |s[1..]| && s[1..][k] == t[j];
          assert s[k + 1] == t[j];
        }
      }
      assert r == [s[0]] + t;
    } else {
      forall j | 0 < j < |r|
        ensures StrLessEq(x, r[j])
      {
        assert r[j] == s[j - 1];
        if x != s[0] {
          StrLessTotal(x, s[0]);
          if j > 1 && s[0] != s[j - 1] {
            StrLessTransitive(x, s[0], s[j - 1]);
          }
        }
      }
    }
  }

  /** The identifiers in ascending string order. */
  function Sort(s: seq<string>): (r: seq<string>)
    ensures |r| == |s|
    ensures multiset(r) == multiset(s)
    decreases |s|
  {
    if s == [] then []
    else
      assert s == s[..|s| - 1] + [s[|s| - 1]];
      Insert(Sort(s[..|s| - 1]), s[|s| - 1])
  }

  lemma {:induction false} SortSorted(s: seq<string>)
    ensures Sorted(Sort(s))
    decreases |s|
  {
    if s != [] {
      SortSorted(s[..|s| - 1]);
      InsertSorted(Sort(s[..|s| - 1]), s[|s| - 1]);
    }
  }

  /** The matrix over the sorted node list. Cell (i, j) is `Direct` when
      its source and target coincide or an edge joins them, `Indirect`
      when only a longer path does, and `NoConnection` otherwise. */
  method TraceabilityMatrix(g: DiGraph) returns (labels: seq<ReqId>, matrix: seq<seq<Cell>>)
    requires g.Valid()
    ensures Sorted(labels)
    ensures multiset(labels) == multiset(g.nodes)
    ensures |matrix| == |labels|
    ensures forall i :: 0 <= i < |labels| ==> |matrix[i]| == |labels|
    ensures forall i, j :: 0 <= i < |labels| && 0 <= j < |labels| ==>
      && (matrix[i][j] == Direct <==> labels[i] == labels[j] || HasEdge(g.edges, labels[i], labels[j]))
      && (matrix[i][j] == Indirect <==>
            labels[i] != labels[j] && !HasEdge(g.edges, labels[i], labels[j]) && Reaches(g.edges, labels[i], labels[j]))
      && (matrix[i][j] == NoConnection <==> !Reaches(g.edges, labels[i], labels[j]))
  {
    labels := Sort(g.nodes);
    SortSorted(g.nodes);
    forall k | 0 <= k < |labels|
      ensures labels[k] in g.nodes
    {
      assert labels[k] in multiset(labels);
    }
    matrix := [];
    var i := 0;
    while i < |labels|
      invariant 0 <= i <= |labels|
      invariant |matrix| == i
      invariant forall a :: 0 <= a < i ==> CellsMatch(g.edges, labels, labels[a], matrix[a])
    {
      var row := Row(g, labels, labels[i]);
      matrix := matrix + [row];
      i := i + 1;
    }
  }

  /** `row` classifies, column by column, how `source` reaches `targets`. */
  ghost predicate CellsMatch(edges: EdgeMap, targets: seq<ReqId>, source: ReqId, row: seq<Cell>) {
    && |row| == |targets|
    && forall j :: 0 <= j < |targets| ==>
      && (row[j] == Direct <==> source == targets[j] || HasEdge(edges, source, targets[j]))
      && (row[j] == Indirect <==>
            source != targets[j] && !HasEdge(edges, source, targets[j]) && Reaches(edges, source, targets[j]))
      && (row[j] == NoConnection <==> !Reaches(edges, source, targets[j]))
  }

  /** One row of the matrix: the cells of `source` against every target. */
  method Row(g: DiGraph, targets: seq<ReqId>, source: ReqId) returns (row: seq<Cell>)
    requires g.Valid()
    requires source in g.nodes
    requires forall k :: 0 <= k < |targets| ==> targets[k] in g.nodes
    ensures CellsMatch(g.edges, targets, source, row)
  {
    row := [];
    var j := 0;
    while j < |targets|
      invariant 0 <= j <= |targets|
      invariant CellsMatch(g.edges, targets[..j], source, row)
    {
      var target := targets[j];
      if source == target {
        ReachesSelf(g.edges, source);
        row := row + [Direct];
      } else if HasEdge(g.edges, source, target) {
        ReachesEdge(g.edges, source, target);
        row := row + [Direct];
      } else {
        var path := Reachability.HasPath(g, source, target);
        if path == Ok(true) {
          row := row + [Indirect];
        } else {
          row := row + [NoConnection];
        }
      }
      assert targets[..j + 1] == targets[..j] + [target];
      j := j + 1;
    }
    assert targets[..j] == targets;
  }
}
