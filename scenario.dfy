/**
 The change scenario the tool runs on its own graph: requirements
 "Req 1" and "Req 3" change.
 */
module Scenario {
  import opened Graph
  import opened Requirements
  import opened Impact

  const CHANGE_SCENARIO: seq<ReqId> := ["Req 1", "Req 3"]

  /** The requirements affected by changing "Req 1" and "Req 3". */
  const SCENARIO_IMPACT: set<ReqId> := {
    "Req 1", "Req 1.1", "Req 1.2", "Req 1.3", "Req 1.4",
    "Req 3", "Req 3.1", "Req 3.2", "Req 3.3", "Req 3.4", "Req 3.5", "Req 3.6", "Req 3.7", "Req 3.8",
    "Req 4", "Req 4.1",
    "Req 6", "Req 6.1", "Req 6.2", "Req 6.3", "Req 6.4"
  }

  /** The requirements the scenario leaves untouched. */
  const UNAFFECTED: set<ReqId> := {
    "Req 2", "Req 2.1", "Req 2.2", "Req 5", "Req 5.1", "Req 5.2", "Req 5.3", "Req 5.4", "Req 5.5"
  }

  lemma ScenarioImpactSize()
    ensures |SCENARIO_IMPACT| == 21
  {
    var first: set<ReqId> := {"Req 1", "Req 1.1", "Req 1.2", "Req 1.3", "Req 1.4", "Req 3", "Req 3.1", "Req 3.2", "Req 3.3", "Req 3.4"};
    var rest: set<ReqId> := {"Req 3.5", "Req 3.6", "Req 3.7", "Req 3.8", "Req 4", "Req 4.1", "Req 6", "Req 6.1", "Req 6.2", "Req 6.3", "Req 6.4"};
    assert |first| == 10 && |rest| == 11;
    assert first * rest == {};
    assert SCENARIO_IMPACT == first + rest;
  }

  /** The edges of the built graph, as a set. It repeats `INSERTIONS` as a
      set display because membership in a display is cheap for the
      verifier, where membership in a sequence display is not;
      `BuiltEdgeSet` proves the two agree. */
  const BUILT_EDGES: set<(ReqId, ReqId)> := {
    ("Req 1", "Req 1.1"), ("Req 1", "Req 1.2"), ("Req 1", "Req 1.3"), ("Req 1", "Req 1.4"),
    ("Req 2", "Req 2.1"), ("Req 2", "Req 2.2"),
    ("Req 3", "Req 3.1"), ("Req 3", "Req 3.2"), ("Req 3", "Req 3.3"), ("Req 3", "Req 3.4"),
    ("Req 3", "Req 3.5"), ("Req 3", "Req 3.6"), ("Req 3", "Req 3.7"), ("Req 3", "Req 3.8"),
    ("Req 4", "Req 4.1"),
    ("Req 5", "Req 5.1"), ("Req 5", "Req 5.2"), ("Req 5", "Req 5.3"), ("Req 5", "Req 5.4"), ("Req 5", "Req 5.5"),
    ("Req 6", "Req 6.1"), ("Req 6", "Req 6.2"), ("Req 6", "Req 6.3"), ("Req 6", "Req 6.4"),
    ("Req 1", "Req 3"), ("Req 3", "Req 4"), ("Req 1", "Req 6"), ("Req 2", "Req 5")
  }

  lemma InsertionsAreBuiltEdges()
    ensures forall e :: e in INSERTIONS ==> e in BUILT_EDGES
  {
  }

  lemma BuiltEdgesAreInsertions()
    ensures forall e :: e in BUILT_EDGES ==> e in INSERTIONS
  {
  }

  /** The built graph's edges are exactly `BUILT_EDGES`. */
  lemma BuiltEdgeSet(edges: EdgeMap)
    requires forall e :: e in edges <==> e in AllPairs()
    ensures forall e :: e in edges <==> e in BUILT_EDGES
  {
    AllPairsAreInsertions();
    InsertionsAreBuiltEdges();
    BuiltEdgesAreInsertions();
  }

  lemma BuiltEdgesStayInScenario()
    ensures forall e :: e in BUILT_EDGES ==> (e.0 in SCENARIO_IMPACT ==> e.1 in SCENARIO_IMPACT)
  {
  }

  /** No edge of the built graph leaves the scenario's impact set. */
  lemma ScenarioImpactClosed(edges: EdgeMap)
    requires forall e :: e in edges <==> e in BUILT_EDGES
    ensures ClosedUnderEdges(edges, SCENARIO_IMPACT)
  {
    BuiltEdgesStayInScenario();
    forall u, v | u in SCENARIO_IMPACT && HasEdge(edges, u, v)
      ensures v in SCENARIO_IMPACT
    {
      assert (u, v) in BUILT_EDGES;
    }
  }

  /** Every member of `SCENARIO_IMPACT` flows from "Req 1" or "Req 3". */
  lemma ScenarioImpactReached(edges: EdgeMap, b: ReqId)
    requires forall e :: e in edges <==> e in BUILT_EDGES
    requires b in SCENARIO_IMPACT
    ensures InImpact(edges, CHANGE_SCENARIO, b)
  {
    if b in CHANGE_SCENARIO {
    } else if b in {"Req 1.1", "Req 1.2", "Req 1.3", "Req 1.4", "Req 6"} {
      ReachesEdge(edges, "Req 1", b);
      assert IsDescendant(edges, "Req 1", b);
    } else if b in {"Req 3.1", "Req 3.2", "Req 3.3", "Req 3.4", "Req 3.5", "Req 3.6", "Req 3.7", "Req 3.8", "Req 4"} {
      ReachesEdge(edges, "Req 3", b);
      assert IsDescendant(edges, "Req 3", b);
    } else if b == "Req 4.1" {
      ReachesEdge(edges, "Req 3", "Req 4");
      ReachesStep(edges, "Req 3", "Req 4", b);
      assert IsDescendant(edges, "Req 3", b);
    } else {
      assert b in {"Req 6.1", "Req 6.2", "Req 6.3", "Req 6.4"};
      ReachesEdge(edges, "Req 1", "Req 6");
      ReachesStep(edges, "Req 1", "Req 6", b);
      assert IsDescendant(edges, "Req 1", b);
    }
  }

  /** On the built graph's edges, the impact of the scenario is exactly
      `SCENARIO_IMPACT`. */
  lemma ScenarioImpactOnBuiltGraph(edges: EdgeMap)
    requires forall e :: e in edges <==> e in BUILT_EDGES
    ensures forall b :: InImpact(edges, CHANGE_SCENARIO, b) <==> b in SCENARIO_IMPACT
  {
    ScenarioImpactClosed(edges);
    forall b | InImpact(edges, CHANGE_SCENARIO, b)
      ensures b in SCENARIO_IMPACT
    {
      ImpactIsLeast(edges, CHANGE_SCENARIO, SCENARIO_IMPACT, b);
    }
    forall b | b in SCENARIO_IMPACT
      ensures InImpact(edges, CHANGE_SCENARIO, b)
    {
      ScenarioImpactReached(edges, b);
    }
  }

  /** "Req 2", "Req 5" and their children are not impacted by the scenario. */
  lemma ScenarioUnaffected(edges: EdgeMap, b: ReqId)
    requires forall e :: e in edges <==> e in BUILT_EDGES
    requires b in UNAFFECTED
    ensures !InImpact(edges, CHANGE_SCENARIO, b)
  {
    ScenarioImpactOnBuiltGraph(edges);
    UnaffectedOutsideImpact();
  }

  lemma UnaffectedOutsideImpact()
    ensures forall b :: b in UNAFFECTED ==> b !in SCENARIO_IMPACT
  {
    ImpactedGroups();
    UnaffectedGroups();
  }

  /** Every unaffected identifier names requirement 2 or 5, or one of their
      children, at its fifth character. */
  lemma UnaffectedGroups()
    ensures forall b :: b in UNAFFECTED ==> |b| > 4 && b[4] in {'2', '5'}
  {
  }

  /** Every impacted identifier names requirement 1, 3, 4 or 6, or one of
      their children, at its fifth character. */
  lemma ImpactedGroups()
    ensures forall b :: b in SCENARIO_IMPACT ==> |b| > 4 && b[4] in {'1', '3', '4', '6'}
  {
  }

  /** On any graph holding exactly the built edges, the changed
      requirements are nodes and their impact is `SCENARIO_IMPACT`. */
  lemma ScenarioOnBuiltGraph(nodes: seq<ReqId>, edges: EdgeMap)
    requires forall e :: e in edges <==> e in AllPairs()
    requires forall e :: e in edges ==> e.0 in nodes && e.1 in nodes
    ensures forall i :: 0 <= i < |CHANGE_SCENARIO| ==> CHANGE_SCENARIO[i] in nodes
    ensures forall b :: InImpact(edges, CHANGE_SCENARIO, b) <==> b in SCENARIO_IMPACT
  {
    BuiltEdgeSet(edges);
    assert ("Req 1", "Req 1.1") in edges && ("Req 3", "Req 3.1") in edges;
    ScenarioImpactOnBuiltGraph(edges);
  }

  /** Analyses the change of "Req 1" and "Req 3" on a graph holding
      exactly the built edges. */
  method AnalyseScenario(g: DiGraph) returns (affected: set<ReqId>)
    requires g.Valid()
    requires forall e :: e in g.edges <==> e in AllPairs()
    ensures affected == SCENARIO_IMPACT
  {
    ScenarioOnBuiltGraph(g.nodes, g.edges);
    var r := PerformImpactAnalysis(g, CHANGE_SCENARIO);
    affected := r.value.impacted;
  }

  /** Builds the requirement graph and analyses the change of "Req 1" and
      "Req 3": 21 requirements are affected. */
  method SimulateChange() returns (affected: set<ReqId>)
    ensures affected == SCENARIO_IMPACT
    ensures |affected| == 21
  {
    var g := BuildRequirementsGraph();
    affected := AnalyseScenario(g);
    ScenarioImpactSize();
  }
}
