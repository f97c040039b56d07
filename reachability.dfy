/**
 Reachability queries over a `DiGraph`: the descendants of a node and
 whether a path joins two nodes. Both rest on one worklist traversal with
 a visited set, which terminates on any graph, cyclic or not, because a
 node is pushed only when it is first visited.
 */
module Reachability {
  import opened Graph

  /** One traversal step: marks every unvisited successor of `u` as
      visited and adds it to the frontier. */
  method VisitSuccessors(g: DiGraph, source: ReqId, u: ReqId, visited: set<ReqId>, frontier: set<ReqId>)
    returns (visited': set<ReqId>, frontier': set<ReqId>)
    requires g.Valid()
    requires Reaches(g.edges, source, u)
    requires forall x :: x in visited ==> Reaches(g.edges, source, x)
    ensures forall y :: y in visited' <==> y in visited || (HasEdge(g.edges, u, y) && y in g.nodes)
    ensures forall x :: x in visited' ==> Reaches(g.edges, source, x)
    ensures frontier' == frontier + (visited' - visited)
  {
    visited', frontier' := visited, frontier;
    var j := 0;
    while j < |g.nodes|
      invariant 0 <= j <= |g.nodes|
      invariant forall y :: y in visited' <==> y in visited || (HasEdge(g.edges, u, y) && y in g.nodes[..j])
      invariant forall x :: x in visited' ==> Reaches(g.edges, source, x)
      invariant frontier' == frontier + (visited' - visited)
    {
      var v := g.nodes[j];
      if HasEdge(g.edges, u, v) && v !in visited' {
        ReachesStep(g.edges, source, u, v);
        visited' := visited' + {v};
        frontier' := frontier' + {v};
      }
      assert g.nodes[..j + 1] == g.nodes[..j] + [v];
      j := j + 1;
    }
    assert g.nodes[..j] == g.nodes;
  }

  /** The set of nodes reachable from `source` (including `source`). */
  method ReachableSet(g: DiGraph, source: ReqId) returns (visited: set<ReqId>)
    requires g.Valid()
    requires source in g.nodes
    ensures forall b :: b in visited ==> b in g.nodes
    ensures forall b :: b in visited <==> Reaches(g.edges, source, b)
  {
    ghost var all := set x | x in g.nodes;
    visited := {source};
    var frontier := {source};
    ReachesSelf(g.edges, source);
    while frontier != {}
      invariant frontier <= visited <= all
      invariant source in visited
      invariant forall x :: x in visited ==> Reaches(g.edges, source, x)
      invariant forall x, y :: x in visited && x !in frontier && HasEdge(g.edges, x, y) ==> y in visited
      decreases |all - visited|, |frontier|
    {
      var u :| u in frontier;
      ghost var visited0, frontier0 := visited, frontier;
      visited, frontier := VisitSuccessors(g, source, u, visited, frontier - {u});
      if visited == visited0 {
        assert frontier < frontier0;
      } else {
        SubsetShrinks(all, visited0, visited);
      }
    }
    ClosedContainsAllReachable(g.edges, visited, source);
  }

  lemma SubsetShrinks(all: set<ReqId>, a: set<ReqId>, b: set<ReqId>)
    requires a <= b <= all && a != b
    ensures |all - b| < |all - a|
  {
    var x :| x in b && x !in a;
    assert all - a == (all - b) + (b - a);
    assert (all - b) * (b - a) == {};
    assert x in b - a;
  }

  /** All nodes reachable from `source` by at least one edge, never
      `source` itself; an unknown `source` is an error. */
  method Descendants(g: DiGraph, source: ReqId) returns (r: Result<set<ReqId>>)
    requires g.Valid()
    ensures r.Err? <==> source !in g.nodes
    ensures r.Err? ==> r.error == UnknownNode(source)
    ensures r.Ok? ==> forall b :: b in r.value ==> b in g.nodes
    ensures r.Ok? ==> forall b :: b in r.value <==> IsDescendant(g.edges, source, b)
  {
    if source !in g.nodes {
      return Err(UnknownNode(source));
    }
    var reach := ReachableSet(g, source);
    r := Ok(reach - {source});
  }

  /** Whether a path of zero or more edges leads from `a` to `b`; an
      unknown endpoint is an error. */
  method HasPath(g: DiGraph, a: ReqId, b: ReqId) returns (r: Result<bool>)
    requires g.Valid()
    ensures r.Err? <==> a !in g.nodes || b !in g.nodes
    ensures r.Err? ==> r.error == UnknownNode(if a !in g.nodes then a else b)
    ensures r.Ok? ==> (r.value <==> Reaches(g.edges, a, b))
  {
    if a !in g.nodes {
      return Err(UnknownNode(a));
    }
    if b !in g.nodes {
      return Err(UnknownNode(b));
    }
    var reach := ReachableSet(g, a);
    r := Ok(b in reach);
  }
}
