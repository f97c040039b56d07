# Requirement traceability: graph, impact analysis and traceability matrix

This project models the engine of the requirement traceability tool in
`traceability_tool.py`. It has three parts.

- **Construction.** The requirement graph is built from two fixed tables:
  - a derivation table, which adds edges from each parent to its children with kind `derived`;
  - a dependency list, which adds edges from each provider to its dependent with kind `dependency`.
- **Impact analysis.** The impact set ("blast radius") of a list of changed requirements is the changed requirements plus all their descendants. Each node, in node order, then gets exactly one colour: red for changed, orange for impacted, light grey for unaffected.
- **Traceability matrix.** A square matrix over the node identifiers in ascending string order. Each cell says one of three things: the target is the source itself or a direct successor; the target is reachable only through a longer path; or the target is not reachable at all.

The files:

- `graph.dfy` (module `Graph`):
  - the graph is the class `DiGraph`, which `AddEdge` updates in place;
  - there is one edge per ordered pair, and adding a pair again overwrites its kind;
  - nodes are kept in order of first insertion;
  - reachability (`Reaches`, `IsDescendant`) is defined once, by explicit paths over the edge map.
- `reachability.dfy` (module `Reachability`):
  - a worklist traversal with a visited set, proved to terminate on every graph, cyclic or not, and to compute exactly the reachable set;
  - `Descendants` and `HasPath` are the library queries the tool calls, built on this traversal.
- `requirements.dfy` (module `Requirements`): the two tables and the construction loops.
- `impact.dfy` (module `Impact`): the impact set and the colour of each node.
- `matrix.dfy` (module `Traceability`): the string order used by sorting, the sorted node list, and the cell classification.
- `scenario.dfy` (module `Scenario`): the change scenario the script runs, in which "Req 1" and "Req 3" change.

Errors are values. A changed requirement or query endpoint that is not a node of the graph gives `Err(UnknownNode(id))`.

## Model

| member | source | states |
|---|---|---|
| Graph.DiGraph.constructor | traceability_tool.py:10 | A new graph has no nodes and no edges. |
| Graph.DiGraph.AddEdge | traceability_tool.py:26 | Adding `u -> v` appends `u` and then `v` to the node order when each is new. It sets the kind of exactly that edge, overwriting any earlier kind. It keeps nodes distinct and keeps every edge between nodes. |
| Graph.ReachesTransitive | traceability_tool.py:80 | Reachability composes: a path from a to b and a path from b to c give a path from a to c. |
| Graph.DescendantClosure | traceability_tool.py:80 | A descendant of a descendant of `a` is a descendant of `a`, unless it is `a` itself (possible on a cycle). |
| Graph.ClosedContainsReachable | traceability_tool.py:79-81 | A set closed under edges contains everything reachable from any of its members. |
| Graph.PathStaysIn | traceability_tool.py:79-81 | A path that starts inside a set closed under edges ends inside it. |
| Reachability.ReachableSet | traceability_tool.py:80 | For a node `source`, the traversal returns exactly the nodes reachable from `source` by zero or more edges of either kind. All of them are nodes. |
| Reachability.VisitSuccessors | traceability_tool.py:80 | One traversal step marks exactly the unvisited successors of a node. It adds exactly those to the frontier, and keeps everything visited reachable. |
| Reachability.Descendants | traceability_tool.py:80 | Gives `UnknownNode(source)` exactly when `source` is not a node. Otherwise it returns exactly the nodes other than `source` that `source` reaches. |
| Reachability.HasPath | traceability_tool.py:57 | Gives an error exactly when an endpoint is not a node, naming the first missing one. Otherwise the answer is true exactly when a path joins the two. |
| Impact.PerformImpactAnalysis | traceability_tool.py:76-91 | Gives an error exactly when some changed requirement is not a node, naming the first such one in list order. Otherwise the impact set is exactly the changed requirements plus their descendants, and lies within the nodes. There is one role per node, in node order. A node is Changed iff it is in the changed list, Impacted iff it is not changed but is in the impact set, and Unaffected iff it is outside the impact set. |
| Impact.ColourNodes | traceability_tool.py:84-91 | Gives one colour per node in node order. Red iff the node is changed; orange iff it is not changed and is impacted; grey iff it is neither. |
| Impact.ImpactClosed | traceability_tool.py:79-81 | The impact set is closed under successors, whatever the edge kind. |
| Impact.ImpactIsReachable | traceability_tool.py:76-81 | A node is in the impact set iff some changed requirement reaches it by zero or more edges. |
| Impact.ImpactMonotone | traceability_tool.py:77-81 | Adding changed requirements never removes a node from the impact set. |
| Impact.ImpactIsLeast | traceability_tool.py:76-81 | Any set that holds every changed requirement and is closed under edges contains the whole impact set. |
| Traceability.StrLessTransitive | traceability_tool.py:47 | The string order used by sorting is transitive. |
| Traceability.StrLessTotal | traceability_tool.py:47 | Any two different strings are ordered one way or the other. |
| Traceability.StrLessAsymmetric | traceability_tool.py:47 | No two strings are each less than the other, so the order is strict. |
| Traceability.SortedPermutationUnique | traceability_tool.py:47 | Two sorted permutations of the same identifiers are equal, so the sorted node list is exactly the one `sorted` returns. |
| Traceability.InsertSorted | traceability_tool.py:47 | Inserting into a sorted list keeps it sorted. |
| Traceability.SortSorted | traceability_tool.py:47 | The sorted node list is in ascending string order. |
| Traceability.Sort | traceability_tool.py:47 | The sorted list is a permutation of its input. |
| Traceability.TraceabilityMatrix | traceability_tool.py:47-61 | The labels are the nodes, sorted and as a permutation. The matrix is n×n over them. A cell is Direct iff source == target or the edge exists; Indirect iff they differ, there is no edge, and a path exists; NoConnection iff there is no path. |
| Traceability.Row | traceability_tool.py:51-61 | One row classifies each target against the source by the same three conditions. |
| Requirements.BuildRequirementsGraph | traceability_tool.py:6-41 | The nodes are the endpoints of all insertions in order of first insertion, and are exactly the table entries. The edges are exactly the inserted pairs. Every derivation pair has a `derived` edge and every dependency pair a `dependency` edge. |
| Requirements.AddDerivationEdges | traceability_tool.py:24-26 | After the derivation loop, the graph holds exactly the derivation pairs, all of kind `derived`, with nodes in insertion order. |
| Requirements.AddChildEdges | traceability_tool.py:25-26 | The inner loop adds the edges from one parent to each of its children, in order, all of kind `derived`. |
| Requirements.AddDependencyEdges | traceability_tool.py:38-39 | Each dependency pair gets kind `dependency`. Every other edge keeps its earlier kind, and the graph holds exactly the edges inserted so far. |
| Requirements.KindsStep | traceability_tool.py:39 | One dependency insertion sets that pair to `dependency` and leaves every other edge's kind as it was before the loop. |
| Requirements.BuiltFromTables | traceability_tool.py:14-39 | The nodes of the inserted pairs are exactly the table entries. Every derivation pair is inserted and is not a dependency pair. Every dependency pair is inserted. |
| Requirements.TablesShareNoPair | traceability_tool.py:14-35 | No (parent, child) pair is also a (provider, dependent) pair, so no dependency edge overwrites a derivation edge. |
| Requirements.AllPairsAreInsertions | traceability_tool.py:14-39 | The construction's insertions, in order, are the 24 derivation pairs followed by the 4 dependency pairs. |
| Requirements.EndpointsAreTableEntries | traceability_tool.py:14-39 | An identifier is an endpoint of an insertion iff it is a child, a parent with at least one child, a provider or a dependent. |
| Requirements.DerivationPairsMembers | traceability_tool.py:24-26 | The pairs the derivation loops insert are exactly (parent, child) for each child listed under a parent. |
| Requirements.EndpointsMembers | traceability_tool.py:26 | The endpoints of a list of insertions are exactly the sources and targets of its pairs. |
| Requirements.DedupMembers | traceability_tool.py:26 | The node list holds exactly the endpoints inserted. |
| Requirements.DedupDistinct | traceability_tool.py:26 | The node list has no repetitions. |
| Requirements.DedupInFirstOccurrenceOrder | traceability_tool.py:26 | The node list is in order of first insertion. |
| Requirements.RecordEdge | traceability_tool.py:26 | Inserting `u -> v` into a graph built from the insertions so far gives a graph built from one more insertion. Only that edge's kind changes. |
| Requirements.FirstOccurrenceStep | traceability_tool.py:26 | Appending an identifier keeps the node list in order of first insertion. |
| Requirements.InsertionOrderStep | traceability_tool.py:26 | One more insertion extends the node list by its new endpoints, source first. |
| Scenario.ScenarioImpactSize | traceability_tool.py:131 | The scenario's impact set has 21 members. |
| Scenario.BuiltEdgeSet | traceability_tool.py:118 | The built graph's edges are exactly the 28 listed pairs. |
| Scenario.ScenarioImpactClosed | traceability_tool.py:126-129 | No edge of the built graph leaves the 21-node set. |
| Scenario.ScenarioImpactReached | traceability_tool.py:126-129 | Each of the 21 nodes is "Req 1", "Req 3" or a descendant of one of them. |
| Scenario.ScenarioImpactOnBuiltGraph | traceability_tool.py:126-129 | On the built graph, the impact of {Req 1, Req 3} is exactly: Req 1, Req 1.1–1.4, Req 3, Req 3.1–3.8, Req 4, Req 4.1, Req 6, Req 6.1–6.4. |
| Scenario.ScenarioUnaffected | traceability_tool.py:126-129 | Req 2, Req 2.1–2.2, Req 5 and Req 5.1–5.5 are not impacted. |
| Scenario.ScenarioOnBuiltGraph | traceability_tool.py:118-129 | On a graph with the built edges, both changed requirements are nodes and the impact is the 21-node set. |
| Scenario.AnalyseScenario | traceability_tool.py:126-129 | The impact analysis on the built graph succeeds and returns the 21-node set. |
| Scenario.SimulateChange | traceability_tool.py:118-131 | Building the graph and analysing the change of "Req 1" and "Req 3" affects exactly the 21 listed requirements. |

## Left out

- Drawing is not modelled: the heat map, the figure, the network drawing, the legend and the titles (traceability_tool.py:63-69, 93-111). They are presentation only.
- `nx.spring_layout` (traceability_tool.py:95) is not modelled. It is a seeded random floating-point layout.
- The pandas `DataFrame` wrapping of the matrix (traceability_tool.py:63) is not modelled. The matrix is a sequence of rows of the three-valued `Cell` (1, 0.5 and 0 in the source), not floats.
- `print` output and the `__main__` driver are not modelled. The only exception is its scenario, which `Scenario.SimulateChange` models.
- The networkx library is not part of this model.
  - `nx.descendants` and `nx.has_path` are replaced by the verified traversal in `Reachability`.
  - Their exceptions for an unknown node are modelled as `Err(UnknownNode(id))`.
  - When both endpoints of `HasPath` are missing, the error names `a`; networkx raises one `NodeNotFound` that names both.
- Edge attributes other than the kind are not modelled. The tool sets no others.
- `Reachability.ReachableSet`: the traversal finds successors by scanning the node list, not an adjacency structure. Only the resulting set is stated, not the order in which nodes are discovered.
- `Traceability.Sort`: Python's `sorted` is modelled as an insertion sort under code-point string order with a proper prefix first. Only its result is stated, not its algorithm. `Traceability.SortedPermutationUnique` shows that a sorted permutation is unique, so the labels are the order Python's `sorted` gives.
- The derivation table is iterated in its written order, which is Python's dictionary insertion order.
- Scheduling, effort values and baseline/revised slip comparison are not in `traceability_tool.py`, so they are not modelled.
- `Graph.DiGraph` keeps one edge per ordered pair, as a networkx `DiGraph` does, and a second `add_edge` overwrites the kind. `Requirements.TablesShareNoPair` shows that the tool's own tables never trigger this.
- `Graph.DescendantClosure` states `descendants(descendants(n)) ⊆ descendants(n)` except for `n` itself. Descendants never include the start node, so on a cycle through `n` the law without that exception fails.
- A parent whose child list is empty would never become a node, because nodes are created only by `add_edge`. `Requirements.InTables` counts a parent only when it has at least one child. The tool's own table has no empty child list.
