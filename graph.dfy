/**
 The requirement graph: a directed graph whose nodes are requirement
 identifiers and whose edges carry a kind (`derived` for parent -> child,
 `dependency` for provider -> dependent). At most one edge exists per
 ordered pair; adding an edge again overwrites its kind.

 Reachability is stated once, on the edge map, by explicit paths.
 */
module Graph {

  type ReqId = string

  /** The `type` attribute attached to each edge. */
  datatype EdgeKind = Derived | Dependency

  datatype GraphError = UnknownNode(id: ReqId)

  datatype Result<T> = Ok(value: T) | Err(error: GraphError)

  type EdgeMap = map<(ReqId, ReqId), EdgeKind>

  predicate HasEdge(edges: EdgeMap, u: ReqId, v: ReqId) {
    (u, v) in edges
  }

  /** `s` with `x` appended, unless `x` is already there. */
  function AppendNew(s: seq<ReqId>, x: ReqId): (r: seq<ReqId>)
    ensures x in r
    ensures forall y :: y in r <==> y in s || y == x
    ensures x in s ==> r == s
    ensures x !in s ==> |r| == |s| + 1 && r[..|s|] == s && r[|s|] == x
  {
    if x in s then s else s + [x]
  }

  predicate Distinct(s: seq<ReqId>) {
    forall i, j :: 0 <= i < j < |s| ==> s[i] != s[j]
  }

  /** A directed graph that is updated in place by `AddEdge`. */
  class DiGraph {
    /** The nodes, in order of first insertion. */
    var nodes: seq<ReqId>
    /** One edge per ordered pair, with its kind. */
    var edges: EdgeMap

    ghost predicate Valid()
      reads this
    {
      && Distinct(nodes)
      && forall e :: e in edges ==> e.0 in nodes && e.1 in nodes
    }

    constructor ()
      ensures Valid()
      ensures nodes == [] && edges == map[]
    {
      nodes := [];
      edges := map[];
    }

    /** Adds `u` and then `v` as nodes when they are new, and sets the
        kind of the edge `u -> v`, replacing any kind it had. */
    method AddEdge(u: ReqId, v: ReqId, kind: EdgeKind)
      requires Valid()
      modifies this
      ensures Valid()
      ensures nodes == AppendNew(AppendNew(old(nodes), u), v)
      ensures edges == old(edges)[(u, v) := kind]
    {
      var n := nodes;
      if u !in n {
        n := n + [u];
      }
      if v !in n {
        n := n + [v];
      }
      nodes := n;
      edges := edges[(u, v) := kind];
    }
  }

  /** `p` is a walk from `a` to `b` that follows edges of any kind. */
  ghost predicate IsPathFrom(edges: EdgeMap, p: seq<ReqId>, a: ReqId, b: ReqId) {
    && |p| > 0
    && p[0] == a
    && p[|p| - 1] == b
    && forall i :: 0 <= i < |p| - 1 ==> HasEdge(edges, p[i], p[i + 1])
  }

  /** `b` can be reached from `a` by zero or more edges. */
  ghost predicate Reaches(edges: EdgeMap, a: ReqId, b: ReqId) {
    exists p :: IsPathFrom(edges, p, a, b)
  }

  /** `b` is a descendant of `a`: reachable, and not `a` itself. */
  ghost predicate IsDescendant(edges: EdgeMap, a: ReqId, b: ReqId) {
    a != b && Reaches(edges, a, b)
  }

  /** Every edge leaving `s` ends in `s`. */
  ghost predicate ClosedUnderEdges(edges: EdgeMap, s: set<ReqId>) {
    forall u, v :: u in s && HasEdge(edges, u, v) ==> v in s
  }

  lemma ReachesSelf(edges: EdgeMap, a: ReqId)
    ensures Reaches(edges, a, a)
  {
    assert IsPathFrom(edges, [a], a, a);
  }

  lemma ReachesEdge(edges: EdgeMap, a: ReqId, b: ReqId)
    requires HasEdge(edges, a, b)
    ensures Reaches(edges, a, b)
  {
    assert IsPathFrom(edges, [a, b], a, b);
  }

  /** A path can be extended by one edge. */
  lemma ReachesStep(edges: EdgeMap, a: ReqId, u: ReqId, v: ReqId)
    requires Reaches(edges, a, u)
    requires HasEdge(edges, u, v)
    ensures Reaches(edges, a, v)
  {
    var p :| IsPathFrom(edges, p, a, u);
    assert IsPathFrom(edges, p + [v], a, v);
  }

  lemma ReachesTransitive(edges: EdgeMap, a: ReqId, b: ReqId, c: ReqId)
    requires Reaches(edges, a, b)
    requires Reaches(edges, b, c)
    ensures Reaches(edges, a, c)
  {
    var p :| IsPathFrom(edges, p, a, b);
    var q :| IsPathFrom(edges, q, b, c);
    var r := p + q[1..];
    forall i | 0 <= i < |r| - 1
      ensures HasEdge(edges, r[i], r[i + 1])
    {
      if i < |p| - 1 {
        assert r[i] == p[i] && r[i + 1] == p[i + 1];
      } else {
        assert r[i] == q[i - |p| + 1] && r[i + 1] == q[i - |p| + 2];
      }
    }
    assert IsPathFrom(edges, r, a, c);
  }

  /** A path that starts inside a set closed under edges stays inside it. */
  lemma {:induction false} PathStaysIn(edges: EdgeMap, s: set<ReqId>, p: seq<ReqId>, a: ReqId, b: ReqId)
    requires ClosedUnderEdges(edges, s)
    requires IsPathFrom(edges, p, a, b)
    requires a in s
    ensures b in s
    decreases |p|
  {
    if |p| > 1 {
      var q := p[..|p| - 1];
      assert IsPathFrom(edges, q, a, q[|q| - 1]);
      PathStaysIn(edges, s, q, a, q[|q| - 1]);
      assert HasEdge(edges, p[|p| - 2], p[|p| - 1]);
    }
  }

  /** Everything reachable from a member of a set closed under edges is in it. */
  lemma ClosedContainsReachable(edges: EdgeMap, s: set<ReqId>, a: ReqId, b: ReqId)
    requires ClosedUnderEdges(edges, s)
    requires a in s
    requires Reaches(edges, a, b)
    ensures b in s
  {
    var p :| IsPathFrom(edges, p, a, b);
    PathStaysIn(edges, s, p, a, b);
  }

  lemma ClosedContainsAllReachable(edges: EdgeMap, s: set<ReqId>, a: ReqId)
    requires ClosedUnderEdges(edges, s)
    requires a in s
    ensures forall b :: Reaches(edges, a, b) ==> b in s
  {
    forall b | Reaches(edges, a, b)
      ensures b in s
    {
      ClosedContainsReachable(edges, s, a, b);
    }
  }

  /** Descendants of descendants are descendants, except the start itself. */
  lemma DescendantClosure(edges: EdgeMap, a: ReqId, b: ReqId, c: ReqId)
    requires IsDescendant(edges, a, b)
    requires IsDescendant(edges, b, c)
    requires c != a
    ensures IsDescendant(edges, a, c)
  {
    ReachesTransitive(edges, a, b, c);
  }
}
