/**
 Impact analysis ("blast radius"): the changed requirements together with
 everything that flows from them along edges of either kind, and the role
 each node of the graph plays in the diagram.
 */
module Impact {
  import opened Graph
  import Reachability

  /** A node's colour in the impact diagram: red, orange or light grey. */
  datatype Role = Changed | Impacted | Unaffected

  datatype ImpactReport = ImpactReport(impacted: set<ReqId>, roles: seq<Role>)

  /** `b` is changed itself or is a descendant of a changed requirement. */
  ghost predicate InImpact(edges: EdgeMap, changed: seq<ReqId>, b: ReqId) {
    b in changed || exists c :: c in changed && IsDescendant(edges, c, b)
  }

  /** Marks every node, in node order, as changed, impacted or unaffected. */
  method ColourNodes(g: DiGraph, changed: seq<ReqId>, impacted: set<ReqId>) returns (roles: seq<Role>)
    ensures |roles| == |g.nodes|
    ensures forall i :: 0 <= i < |g.nodes| ==>
      && (roles[i] == Changed <==> g.nodes[i] in changed)
      && (roles[i] == Impacted <==> g.nodes[i] !in changed && g.nodes[i] in impacted)
      && (roles[i] == Unaffected <==> g.nodes[i] !in changed && g.nodes[i] !in impacted)
  {
    roles := [];
    var i := 0;
    while i < |g.nodes|
      invariant 0 <= i <= |g.nodes|
      invariant |roles| == i
      invariant forall j :: 0 <= j < i ==>
        && (roles[j] == Changed <==> g.nodes[j] in changed)
        && (roles[j] == Impacted <==> g.nodes[j] !in changed && g.nodes[j] in impacted)
        && (roles[j] == Unaffected <==> g.nodes[j] !in changed && g.nodes[j] !in impacted)
    {
      var node := g.nodes[i];
      if node in changed {
        roles := roles + [Changed];
      } else if node in impacted {
        roles := roles + [Impacted];
      } else {
        roles := roles + [Unaffected];
      }
      i := i + 1;
    }
  }

  /** The impact set of `changed` and the role of every node. A changed
      requirement that is not a node is an error, reported for the first
      such requirement in list order. */
  method PerformImpactAnalysis(g: DiGraph, changed: seq<ReqId>) returns (r: Result<ImpactReport>)
    requires g.Valid()
    ensures r.Err? <==> exists i :: 0 <= i < |changed| && changed[i] !in g.nodes
    ensures r.Err? ==> exists i ::
      && 0 <= i < |changed|
      && changed[i] !in g.nodes
      && r.error == UnknownNode(changed[i])
      && forall j :: 0 <= j < i ==> changed[j] in g.nodes
    ensures r.Ok? ==> forall b :: b in r.value.impacted <==> InImpact(g.edges, changed, b)
    ensures r.Ok? ==> forall b :: b in r.value.impacted ==> b in g.nodes
    ensures r.Ok? ==> |r.value.roles| == |g.nodes|
    ensures r.Ok? ==> forall i :: 0 <= i < |g.nodes| ==>
      && (r.value.roles[i] == Changed <==> g.nodes[i] in changed)
      && (r.value.roles[i] == Impacted <==> g.nodes[i] !in changed && InImpact(g.edges, changed, g.nodes[i]))
      && (r.value.roles[i] == Unaffected <==> !InImpact(g.edges, changed, g.nodes[i]))
  {
    var impacted: set<ReqId> := {};
    var k := 0;
    while k < |changed|
      invariant 0 <= k <= |changed|
      invariant forall j :: 0 <= j < k ==> changed[j] in g.nodes
      invariant forall b :: b in impacted ==> b in g.nodes
      invariant forall b :: b in impacted <==> InImpact(g.edges, changed[..k], b)
    {
      var req := changed[k];
      impacted := impacted + {req};
      var descendants := Reachability.Descendants(g, req);
      if descendants.Err? {
        return Err(descendants.error);
      }
      impacted := impacted + descendants.value;
      assert changed[..k + 1] == changed[..k] + [req];
      k := k + 1;
    }
    assert changed[..k] == changed;
    var roles := ColourNodes(g, changed, impacted);
    r := Ok(ImpactReport(impacted, roles));
  }

  /** The impact set is closed under successors, whatever the edge kind. */
  lemma ImpactClosed(edges: EdgeMap, changed: seq<ReqId>, u: ReqId, v: ReqId)
    requires InImpact(edges, changed, u)
    requires HasEdge(edges, u, v)
    ensures InImpact(edges, changed, v)
  {
    if u in changed {
      if v != u {
        ReachesEdge(edges, u, v);
        assert IsDescendant(edges, u, v);
      }
    } else {
      var c :| c in changed && IsDescendant(edges, c, u);
      ReachesStep(edges, c, u, v);
      if v != c {
        assert IsDescendant(edges, c, v);
      }
    }
  }

  /** A node is in the impact set exactly when some changed requirement
      reaches it by zero or more edges. */
  lemma ImpactIsReachable(edges: EdgeMap, changed: seq<ReqId>, b: ReqId)
    ensures InImpact(edges, changed, b) <==> exists c :: c in changed && Reaches(edges, c, b)
  {
    if b in changed {
      ReachesSelf(edges, b);
    }
  }

  /** Adding changed requirements never removes a node from the impact set. */
  lemma ImpactMonotone(edges: EdgeMap, changed: seq<ReqId>, more: seq<ReqId>, b: ReqId)
    requires forall c :: c in changed ==> c in more
    requires InImpact(edges, changed, b)
    ensures InImpact(edges, more, b)
  {
    if b !in changed {
      var c :| c in changed && IsDescendant(edges, c, b);
      assert c in more;
    }
  }

  /** The impact set is the least set that holds every changed requirement
      and is closed under edges. */
  lemma ImpactIsLeast(edges: EdgeMap, changed: seq<ReqId>, s: set<ReqId>, b: ReqId)
    requires forall c :: c in changed ==> c in s
    requires ClosedUnderEdges(edges, s)
    requires InImpact(edges, changed, b)
    ensures b in s
  {
    if b !in changed {
      var c :| c in changed && IsDescendant(edges, c, b);
      ClosedContainsReachable(edges, s, c, b);
    }
  }
}
