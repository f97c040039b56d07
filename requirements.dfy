/**
 Construction of the requirement graph from its two fixed tables: the
 derivation table (parent -> children, edges of kind `Derived`) and the
 dependency list (provider -> dependent, edges of kind `Dependency`).
 */
module Requirements {
  import opened Graph

  /** Parent requirement and its children, in the table's order. */
  const DERIVATIONS: seq<(ReqId, seq<ReqId>)> := [
    ("Req 1", ["Req 1.1", "Req 1.2", "Req 1.3", "Req 1.4"]),
    ("Req 2", ["Req 2.1", "Req 2.2"]),
    ("Req 3", ["Req 3.1", "Req 3.2", "Req 3.3", "Req 3.4", "Req 3.5", "Req 3.6", "Req 3.7", "Req 3.8"]),
    ("Req 4", ["Req 4.1"]),
    ("Req 5", ["Req 5.1", "Req 5.2", "Req 5.3", "Req 5.4", "Req 5.5"]),
    ("Req 6", ["Req 6.1", "Req 6.2", "Req 6.3", "Req 6.4"])
  ]

  /** (provider, dependent): a change to the provider impacts the dependent. */
  const DEPENDENCIES: seq<(ReqId, ReqId)> := [
    ("Req 1", "Req 3"),
    ("Req 3", "Req 4"),
    ("Req 1", "Req 6"),
    ("Req 2", "Req 5")
  ]

  function ChildPairs(parent: ReqId, children: seq<ReqId>): (r: seq<(ReqId, ReqId)>)
    ensures |r| == |children|
    ensures forall j :: 0 <= j < |children| ==> r[j] == (parent, children[j])
  {
    seq(|children|, j requires 0 <= j < |children| => (parent, children[j]))
  }

  /** The (parent, child) pairs of a derivation table, in insertion order. */
  function DerivationPairs(derivations: seq<(ReqId, seq<ReqId>)>): (r: seq<(ReqId, ReqId)>)
  {
    if derivations == [] then []
    else
      var last := derivations[|derivations| - 1];
      DerivationPairs(derivations[..|derivations| - 1]) + ChildPairs(last.0, last.1)
  }

  /** Every edge insertion of the construction, in order. */
  function AllPairs(): (r: seq<(ReqId, ReqId)>) {
    DerivationPairs(DERIVATIONS) + DEPENDENCIES
  }

  /** The endpoints of a sequence of edge insertions: source, then target. */
  function Endpoints(pairs: seq<(ReqId, ReqId)>): (r: seq<ReqId>)
    ensures |r| == 2 * |pairs|
  {
    if pairs == [] then []
    else
      var last := pairs[|pairs| - 1];
      Endpoints(pairs[..|pairs| - 1]) + [last.0, last.1]
  }

  /** `s` without repetitions: each element where it first occurs. */
  function Dedup(s: seq<ReqId>): (r: seq<ReqId>)
  {
    if s == [] then [] else AppendNew(Dedup(s[..|s| - 1]), s[|s| - 1])
  }

  /** The position of the first occurrence of `x` in `s`. */
  function FirstIndex(s: seq<ReqId>, x: ReqId): (i: nat)
    requires x in s
    ensures i < |s| && s[i] == x
    ensures forall k :: 0 <= k < i ==> s[k] != x
  {
    if s[0] == x then 0 else 1 + FirstIndex(s[1..], x)
  }

  lemma FirstIndexOfPrefix(s: seq<ReqId>, y: ReqId, x: ReqId)
    requires x in s
    ensures FirstIndex(s + [y], x) == FirstIndex(s, x)
  {
    var k := FirstIndex(s, x);
    assert (s + [y])[k] == x;
  }

  lemma {:induction false} DedupMembers(s: seq<ReqId>)
    ensures forall x :: x in Dedup(s) <==> x in s
  {
    if s != [] {
      DedupMembers(s[..|s| - 1]);
      assert s == s[..|s| - 1] + [s[|s| - 1]];
    }
  }

  lemma {:induction false} DedupDistinct(s: seq<ReqId>)
    ensures Distinct(Dedup(s))
  {
    if s != [] {
      DedupDistinct(s[..|s| - 1]);
    }
  }

  /** `d` holds only elements of `s`, listed in order of their first
      occurrence in `s`. */
  ghost predicate InFirstOccurrenceOrder(s: seq<ReqId>, d: seq<ReqId>) {
    && (forall x :: x in d ==> x in s)
    && forall i, j :: 0 <= i < j < |d| ==> FirstIndex(s, d[i]) < FirstIndex(s, d[j])
  }

  /** `Dedup` lists its elements in order of their first occurrence. */
  lemma {:induction false} DedupInFirstOccurrenceOrder(s: seq<ReqId>)
    ensures InFirstOccurrenceOrder(s, Dedup(s))
  {
    DedupMembers(s);
    if s != [] {
      var init, y := s[..|s| - 1], s[|s| - 1];
      assert s == init + [y];
      DedupInFirstOccurrenceOrder(init);
      DedupMembers(init);
      FirstOccurrenceStep(init, y, Dedup(init));
    }
  }

  /** Appending `y` keeps a first-occurrence ordering of `init`'s
      elements a first-occurrence ordering of `init + [y]`. */
  lemma FirstOccurrenceStep(init: seq<ReqId>, y: ReqId, d0: seq<ReqId>)
    requires forall x :: x in d0 <==> x in init
    requires InFirstOccurrenceOrder(init, d0)
    ensures InFirstOccurrenceOrder(init + [y], AppendNew(d0, y))
  {
    var d := AppendNew(d0, y);
    forall i, j | 0 <= i < j < |d|
      ensures FirstIndex(init + [y], d[i]) < FirstIndex(init + [y], d[j])
    {
      FirstIndexOfPrefix(init, y, d[i]);
      if j < |d0| {
        FirstIndexOfPrefix(init, y, d[j]);
      } else {
        assert d[j] == y && y !in init;
        assert FirstIndex(init + [y], y) == |init|;
      }
    }
  }

  lemma {:induction false} EndpointsMembers(pairs: seq<(ReqId, ReqId)>)
    ensures forall x :: x in Endpoints(pairs) <==> exists e :: e in pairs && (x == e.0 || x == e.1)
  {
    if pairs != [] {
      var init, last := pairs[..|pairs| - 1], pairs[|pairs| - 1];
      assert pairs == init + [last];
      EndpointsMembers(init);
    }
  }

  lemma {:induction false} DerivationPairsMembers(derivations: seq<(ReqId, seq<ReqId>)>)
    ensures forall e :: e in DerivationPairs(derivations) <==>
      exists i, j ::
        && 0 <= i < |derivations| && 0 <= j < |derivations[i].1|
        && e == (derivations[i].0, derivations[i].1[j])
  {
    if derivations != [] {
      var n := |derivations| - 1;
      var init := derivations[..n];
      DerivationPairsMembers(init);
      forall e | e in DerivationPairs(derivations)
        ensures exists i, j ::
          && 0 <= i < |derivations| && 0 <= j < |derivations[i].1|
          && e == (derivations[i].0, derivations[i].1[j])
      {
        if e in DerivationPairs(init) {
          var i, j :| 0 <= i < |init| && 0 <= j < |init[i].1| && e == (init[i].0, init[i].1[j]);
          assert derivations[i] == init[i];
        } else {
          var pairs := ChildPairs(derivations[n].0, derivations[n].1);
          var j :| 0 <= j < |pairs| && pairs[j] == e;
        }
      }
      forall i, j | 0 <= i < |derivations| && 0 <= j < |derivations[i].1|
        ensures (derivations[i].0, derivations[i].1[j]) in DerivationPairs(derivations)
      {
        if i < n {
          assert init[i] == derivations[i];
          assert (init[i].0, init[i].1[j]) in DerivationPairs(init);
        } else {
          assert ChildPairs(derivations[n].0, derivations[n].1)[j] == (derivations[i].0, derivations[i].1[j]);
        }
      }
    }
  }

  /** The insertions after one more child: one more pair at the end. */
  lemma ChildPairsSnoc(before: seq<(ReqId, ReqId)>, parent: ReqId, children: seq<ReqId>, j: nat)
    requires j < |children|
    ensures before + ChildPairs(parent, children[..j + 1]) == (before + ChildPairs(parent, children[..j])) + [(parent, children[j])]
  {
    assert ChildPairs(parent, children[..j + 1]) == ChildPairs(parent, children[..j]) + [(parent, children[j])];
  }

  lemma PrefixSnoc<T>(s: seq<T>, k: nat)
    requires k < |s|
    ensures s[..k + 1] == s[..k] + [s[k]]
  {
  }

  lemma PrefixOfPrefix<T>(s: seq<T>, k: nat)
    requires k < |s|
    ensures s[..k + 1][..k] == s[..k]
  {
  }

  /** Recording one more insertion appends its new endpoints, source first. */
  lemma InsertionOrderStep(added: seq<(ReqId, ReqId)>, u: ReqId, v: ReqId)
    ensures Dedup(Endpoints(added + [(u, v)])) == AppendNew(AppendNew(Dedup(Endpoints(added)), u), v)
  {
    var s := Endpoints(added);
    EndpointsSnoc(added, u, v);
    assert s + [u, v] == (s + [u]) + [v];
    DedupSnoc(s + [u], v);
    DedupSnoc(s, u);
  }

  lemma EndpointsSnoc(added: seq<(ReqId, ReqId)>, u: ReqId, v: ReqId)
    ensures Endpoints(added + [(u, v)]) == Endpoints(added) + [u, v]
  {
    assert (added + [(u, v)])[..|added|] == added;
  }

  lemma DedupSnoc(s: seq<ReqId>, x: ReqId)
    ensures Dedup(s + [x]) == AppendNew(Dedup(s), x)
  {
    assert (s + [x])[..|s|] == s;
  }

  /** `x` is a child in the derivation table, or a parent there with at
      least one child, or a provider or a dependent in the dependency list. */
  ghost predicate InTables(derivations: seq<(ReqId, seq<ReqId>)>, dependencies: seq<(ReqId, ReqId)>, x: ReqId) {
    || (exists i :: 0 <= i < |derivations| && (x in derivations[i].1 || (x == derivations[i].0 && derivations[i].1 != [])))
    || (exists k :: 0 <= k < |dependencies| && (x == dependencies[k].0 || x == dependencies[k].1))
  }

  /** The endpoints of all insertions are exactly the entries of the tables. */
  lemma EndpointsAreTableEntries(derivations: seq<(ReqId, seq<ReqId>)>, dependencies: seq<(ReqId, ReqId)>)
    ensures forall x :: x in Endpoints(DerivationPairs(derivations) + dependencies) <==> InTables(derivations, dependencies, x)
  {
    var pairs := DerivationPairs(derivations) + dependencies;
    EndpointsMembers(pairs);
    DerivationPairsMembers(derivations);
    forall x | InTables(derivations, dependencies, x)
      ensures exists e :: e in pairs && (x == e.0 || x == e.1)
    {
      if i :| 0 <= i < |derivations| && (x in derivations[i].1 || (x == derivations[i].0 && derivations[i].1 != [])) {
        if x in derivations[i].1 {
          var j :| 0 <= j < |derivations[i].1| && derivations[i].1[j] == x;
          assert (derivations[i].0, derivations[i].1[j]) in pairs;
        } else {
          assert (derivations[i].0, derivations[i].1[0]) in pairs;
        }
      } else {
        var k :| 0 <= k < |dependencies| && (x == dependencies[k].0 || x == dependencies[k].1);
        assert dependencies[k] in pairs;
      }
    }
  }

  /** Every insertion of the construction, as a literal list, so that the
      tables can be checked against it pair by pair (`AllPairsAreInsertions`). */
  const INSERTIONS: seq<(ReqId, ReqId)> := [
    ("Req 1", "Req 1.1"), ("Req 1", "Req 1.2"), ("Req 1", "Req 1.3"), ("Req 1", "Req 1.4"),
    ("Req 2", "Req 2.1"), ("Req 2", "Req 2.2"),
    ("Req 3", "Req 3.1"), ("Req 3", "Req 3.2"), ("Req 3", "Req 3.3"), ("Req 3", "Req 3.4"),
    ("Req 3", "Req 3.5"), ("Req 3", "Req 3.6"), ("Req 3", "Req 3.7"), ("Req 3", "Req 3.8"),
    ("Req 4", "Req 4.1"),
    ("Req 5", "Req 5.1"), ("Req 5", "Req 5.2"), ("Req 5", "Req 5.3"), ("Req 5", "Req 5.4"), ("Req 5", "Req 5.5"),
    ("Req 6", "Req 6.1"), ("Req 6", "Req 6.2"), ("Req 6", "Req 6.3"), ("Req 6", "Req 6.4"),
    ("Req 1", "Req 3"), ("Req 3", "Req 4"), ("Req 1", "Req 6"), ("Req 2", "Req 5")
  ]

  lemma AllPairsAreInsertions()
    ensures AllPairs() == INSERTIONS
  {
    assert DERIVATIONS[..1][..0] == [];
    assert DerivationPairs(DERIVATIONS[..1]) == INSERTIONS[..4];
    assert DERIVATIONS[..2][..1] == DERIVATIONS[..1];
    assert DerivationPairs(DERIVATIONS[..2]) == INSERTIONS[..6];
    assert DERIVATIONS[..3][..2] == DERIVATIONS[..2];
    assert DerivationPairs(DERIVATIONS[..3]) == INSERTIONS[..14];
    assert DERIVATIONS[..4][..3] == DERIVATIONS[..3];
    assert DerivationPairs(DERIVATIONS[..4]) == INSERTIONS[..15];
    assert DERIVATIONS[..5][..4] == DERIVATIONS[..4];
    assert DerivationPairs(DERIVATIONS[..5]) == INSERTIONS[..20];
    assert DERIVATIONS[..6][..5] == DERIVATIONS[..5];
    assert DERIVATIONS[..6] == DERIVATIONS;
  }

  /** No (parent, child) pair of the derivation table is also a
      (provider, dependent) pair, so no dependency edge overwrites a
      derivation edge. */
  lemma TablesShareNoPair()
    ensures forall e :: e in DerivationPairs(DERIVATIONS) ==> e !in DEPENDENCIES
  {
    AllPairsAreInsertions();
    assert DerivationPairs(DERIVATIONS) == INSERTIONS[..24];
  }

  /** `g` holds exactly the edges of the insertions `added`, and its nodes
      are their endpoints in order of first insertion. */
  ghost predicate Records(g: DiGraph, added: seq<(ReqId, ReqId)>)
    reads g
  {
    g.Valid() && Recorded(g.nodes, g.edges, added)
  }

  /** `nodes` and `edges` are what the insertions `added` produce. */
  ghost predicate Recorded(nodes: seq<ReqId>, edges: EdgeMap, added: seq<(ReqId, ReqId)>) {
    && nodes == Dedup(Endpoints(added))
    && forall e :: e in edges <==> e in added
  }

  /** Inserts the edge `u -> v` of the given kind into a graph that
      records the insertions `added`; it then records one more. */
  method RecordEdge(g: DiGraph, ghost added: seq<(ReqId, ReqId)>, u: ReqId, v: ReqId, kind: EdgeKind)
    requires Records(g, added)
    modifies g
    ensures Records(g, added + [(u, v)])
    ensures g.edges == old(g.edges)[(u, v) := kind]
  {
    InsertionOrderStep(added, u, v);
    g.AddEdge(u, v, kind);
  }

  /** Builds the requirement graph: every derivation edge, parent to child,
      then every dependency edge, provider to dependent. */
  method BuildRequirementsGraph() returns (g: DiGraph)
    ensures fresh(g) && g.Valid()
    ensures g.nodes == Dedup(Endpoints(AllPairs()))
    ensures forall e :: e in g.edges <==> e in AllPairs()
    ensures forall e :: e in g.edges ==> g.edges[e] == if e in DEPENDENCIES then Dependency else Derived
    ensures forall x :: x in g.nodes <==> InTables(DERIVATIONS, DEPENDENCIES, x)
    ensures forall i, j :: 0 <= i < |DERIVATIONS| && 0 <= j < |DERIVATIONS[i].1| ==>
      var e := (DERIVATIONS[i].0, DERIVATIONS[i].1[j]);
      e in g.edges && g.edges[e] == Derived
    ensures forall k :: 0 <= k < |DEPENDENCIES| ==> DEPENDENCIES[k] in g.edges && g.edges[DEPENDENCIES[k]] == Dependency
  {
    g := new DiGraph();
    AddDerivationEdges(g, DERIVATIONS);
    AddDependencyEdges(g, DerivationPairs(DERIVATIONS), DEPENDENCIES);
    BuiltFromTables();
  }

  /** What the insertions of the construction add up to: the nodes are the
      table entries, each derivation pair is inserted and never again as a
      dependency, and each dependency pair is inserted. */
  lemma BuiltFromTables()
    ensures forall x :: x in Dedup(Endpoints(AllPairs())) <==> InTables(DERIVATIONS, DEPENDENCIES, x)
    ensures forall i, j :: 0 <= i < |DERIVATIONS| && 0 <= j < |DERIVATIONS[i].1| ==>
      var e := (DERIVATIONS[i].0, DERIVATIONS[i].1[j]);
      e in AllPairs() && e !in DEPENDENCIES
    ensures forall k :: 0 <= k < |DEPENDENCIES| ==> DEPENDENCIES[k] in AllPairs()
  {
    DedupMembers(Endpoints(AllPairs()));
    EndpointsAreTableEntries(DERIVATIONS, DEPENDENCIES);
    DerivationPairsMembers(DERIVATIONS);
    TablesShareNoPair();
  }

  /** Adds a `Derived` edge from each parent of a derivation table to each
      of its children, to a graph that is still empty. */
  method AddDerivationEdges(g: DiGraph, derivations: seq<(ReqId, seq<ReqId>)>)
    requires g.Valid() && g.nodes == [] && g.edges == map[]
    modifies g
    ensures Records(g, DerivationPairs(derivations))
    ensures forall e :: e in g.edges ==> g.edges[e] == Derived
  {
    ghost var added: seq<(ReqId, ReqId)> := [];
    var i := 0;
    while i < |derivations|
      invariant 0 <= i <= |derivations|
      invariant added == DerivationPairs(derivations[..i])
      invariant Records(g, added)
      invariant forall e :: e in g.edges ==> g.edges[e] == Derived
    {
      AddChildEdges(g, added, derivations[i].0, derivations[i].1);
      added := added + ChildPairs(derivations[i].0, derivations[i].1);
      PrefixOfPrefix(derivations, i);
      i := i + 1;
    }
    assert derivations[..i] == derivations;
  }

  /** Adds a `Derived` edge from `parent` to each child, in order, after
      the insertions `before`. */
  method AddChildEdges(g: DiGraph, ghost before: seq<(ReqId, ReqId)>, parent: ReqId, children: seq<ReqId>)
    requires Records(g, before)
    requires forall e :: e in g.edges ==> g.edges[e] == Derived
    modifies g
    ensures Records(g, before + ChildPairs(parent, children))
    ensures forall e :: e in g.edges ==> g.edges[e] == Derived
  {
    var j := 0;
    assert before + ChildPairs(parent, children[..0]) == before;
    while j < |children|
      invariant 0 <= j <= |children|
      invariant Records(g, before + ChildPairs(parent, children[..j]))
      invariant forall e :: e in g.edges ==> g.edges[e] == Derived
    {
      ChildPairsSnoc(before, parent, children, j);
      RecordEdge(g, before + ChildPairs(parent, children[..j]), parent, children[j], Derived);
      j := j + 1;
    }
    assert children[..j] == children;
  }

  /** Adds a `Dependency` edge for each (provider, dependent) pair, after
      the insertions `before`; an edge already present takes the new kind. */
  method AddDependencyEdges(g: DiGraph, ghost before: seq<(ReqId, ReqId)>, dependencies: seq<(ReqId, ReqId)>)
    requires Records(g, before)
    modifies g
    ensures Records(g, before + dependencies)
    ensures forall e :: e in g.edges ==> g.edges[e] == if e in dependencies then Dependency else old(g.edges[e])
  {
    ghost var added := before;
    var k := 0;
    while k < |dependencies|
      invariant 0 <= k <= |dependencies|
      invariant added == before + dependencies[..k]
      invariant Records(g, added)
      invariant KindsAfter(g.edges, old(g.edges), dependencies[..k])
    {
      var provider, dependent := dependencies[k].0, dependencies[k].1;
      KindsStep(g.edges, old(g.edges), dependencies, k);
      RecordEdge(g, added, provider, dependent, Dependency);
      added := added + [(provider, dependent)];
      PrefixSnoc(dependencies, k);
      k := k + 1;
    }
    assert dependencies[..k] == dependencies;
  }

  /** Each edge of `edges` is a `Dependency` if it is one of `deps`, and
      otherwise an edge of `orig` with its kind unchanged. */
  ghost predicate KindsAfter(edges: EdgeMap, orig: EdgeMap, deps: seq<(ReqId, ReqId)>) {
    forall e :: e in edges ==>
      && (e in deps ==> edges[e] == Dependency)
      && (e !in deps ==> e in orig && edges[e] == orig[e])
  }

  lemma KindsStep(edges: EdgeMap, orig: EdgeMap, deps: seq<(ReqId, ReqId)>, k: nat)
    requires k < |deps|
    requires KindsAfter(edges, orig, deps[..k])
    ensures KindsAfter(edges[deps[k] := Dependency], orig, deps[..k + 1])
  {
    PrefixSnoc(deps, k);
  }
}
