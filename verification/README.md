# Principal feature analysis, algorithm 1, in Dafny

This project models the core of the principal feature analysis package
(`src/principal_feature_analysis/pfa1.py`). Its algorithm 1 has four steps:

1. It tests every pair of features of an `n_obs x n_feat` data matrix for
   dependence (`cor_mat`).
2. It thresholds the p-values into an adjacency matrix, optionally after a
   Bonferroni correction (`cor_adj_mat`).
3. It turns the adjacency matrix into an undirected dependency graph
   (`cor_graph`).
4. It decomposes that graph into complete subgraphs (`pfa1`). It starts from
   the connected components. It then repeatedly deletes a minimum node cut
   from every subgraph that is not complete, until only complete subgraphs
   remain.

`pfa1_full` chains the four steps.

The model has five modules:

- `CorrelationEngine` (`correlation_engine.dfy`) models `cor_mat`. It works
  imperatively on two `array2<real>` matrices, as the source does. The
  correlation tests (Pearson, Spearman, Kendall or a caller's function) are
  parameters.
- `AdjacencyBuilder` (`adjacency_builder.dfy`) models `cor_adj_mat` and
  `cor_graph`. It also proves facts about the correction factor and about
  the shape of the dependency graph.
- `DependencyGraph` (`dependency_graph.dfy`) defines undirected graphs as
  values and the graph notions the algorithm relies on:
  - induced subgraphs and node removal;
  - completeness and the complement's edges;
  - paths, connected components and connectivity;
  - node cuts and minimum node cuts.
  It proves that every graph has a list of its connected components, and
  that every connected graph that is not complete has a minimum node cut.
- `GraphPartitioner` (`graph_partitioner.dfy`) models `pfa1` as methods over
  the two working lists. The main loop is proved to end, and its result is
  proved to be a decomposition:
  - every returned subgraph is non-empty, connected, complete, and induced in
    the dependency graph;
  - no two returned subgraphs share a node;
  - the returned nodes and the deleted nodes together are all the features,
    each exactly once;
  - no edge of the graph leaves a returned subgraph except into a deleted
    node, so the returned subgraphs are exactly the connected components of
    the graph once the deleted nodes are gone;
  - the deleted nodes are exactly the union of the minimum node cuts of the
    subgraphs that were divided;
  - each divided subgraph was, when it was divided, a connected component of
    the graph without the nodes deleted before it, so no node is cut twice;
  - a connected component that is complete from the start is returned
    unchanged.

  On the path 0 - 1 - 2 these facts leave a single answer: node 1 is deleted
  and the two ends come back on their own (`PathGraphDecomposition`).
- `Pipeline` (`pipeline.dfy`) models `pfa1_full`. It proves that, when there
  are at least two features and alpha is at most 1, any two features in one
  returned subgraph passed their dependence test after the correction. With
  a larger alpha, the untested entries on and below the diagonal (p-value 1,
  times the correction factor when the correction is on) can pass as well,
  and they then add edges that no test supports.

The two networkx routines (`connected_components`, `minimum_node_cut`) are
passed in as functions. Their contracts are stated by `LibSound`.

Where the documentation and the code disagree, the model follows the code.
`cor_adj_mat` is documented as correcting by default, but its code defaults
to `correct=False`. `pfa1_full` defaults to `correct=True`. The model keeps
both defaults as the code has them.

With a single feature and the correction on, the Bonferroni factor
`n(n-1)/2` is 0. The diagonal p-value then passes the threshold, and the
dependency graph gets a self-loop. `SingleFeatureCorrectedSelfLoop` states
this behaviour of the code as written.

## Model

| member | source | states |
|---|---|---|
| CorrelationEngine.SelectCorFun | src/principal_feature_analysis/pfa1.py:118-130 | A callable `meth` is used as it is. `'p'`, `'s'` and `'k'` select Pearson, Spearman and Kendall. Any other string is an error naming the string, and any other type is a type error. The result is an error exactly in those two cases. |
| CorrelationEngine.CorMat | src/principal_feature_analysis/pfa1.py:114-137 | Fails exactly when the choice of test fails, with the same error. Otherwise C and P are `n_feat x n_feat`. For every tested pair `i < j`, entry `[i, j]` holds the statistic and the p-value of the test on columns i and j. Every other entry keeps its initial 0 (C) or 1 (P). C and P are newly allocated and are two distinct arrays. |
| AdjacencyBuilder.ComparisonCountIsTestCount | src/principal_feature_analysis/pfa1.py:166-167 | The correction factor `n(n-1)/2` equals the number of pairs `i < j < n`, which is the number of tests cor_mat performs. |
| AdjacencyBuilder.CorrectionExample | src/principal_feature_analysis/pfa1.py:165-170 | With 5 features and alpha 0.05, a p-value of 0.006 passes uncorrected. After correction it becomes 0.06 and fails. |
| AdjacencyBuilder.CorrectionOnlyRemovesEdges | src/principal_feature_analysis/pfa1.py:165-170 | For at least two features and a non-negative p-value, an entry that passes with the correction also passes without it. |
| AdjacencyBuilder.LowerTriangleNeverPasses | src/principal_feature_analysis/pfa1.py:161-170 | For at least two features and alpha at most 1, no entry on or below the diagonal is true, so the adjacency matrix is upper-triangular. |
| AdjacencyBuilder.SingleFeatureCorrectedSelfLoop | src/principal_feature_analysis/pfa1.py:165-170 | With one feature, the correction on and a positive alpha, the correction factor is 0 and the dependency graph has a self-loop on feature 0. |
| AdjacencyBuilder.CorAdjMat | src/principal_feature_analysis/pfa1.py:139-170 | Fails exactly when cor_mat fails, with the same error. Otherwise entry `[i, j]` is true exactly when P[i, j], corrected when `correct` holds, is below alpha. |
| AdjacencyBuilder.CorGraph | src/principal_feature_analysis/pfa1.py:172-185 | The graph is well formed and its nodes are `0..n-1`. Two nodes are adjacent exactly when either of the two matrix entries between them is true. |
| AdjacencyBuilder.DependencyGraphEdges | src/principal_feature_analysis/pfa1.py:164-185 | For at least two features and alpha at most 1, the dependency graph has no self-loop. For `u < v`, the two features are adjacent exactly when the corrected p-value of their test is below alpha. |
| DependencyGraph.Induced | src/principal_feature_analysis/pfa1.py:246 | The subgraph on a node set keeps exactly the nodes in the set. Two nodes are adjacent in it exactly when both are in the set and adjacent in the graph. Well-formedness is kept. |
| DependencyGraph.RemoveNodes | src/principal_feature_analysis/pfa1.py:275-276 | Removing nodes gives the subgraph induced by the nodes that remain. |
| DependencyGraph.InducedOfInduced | src/principal_feature_analysis/pfa1.py:277 | A subgraph induced in an induced subgraph is the subgraph induced in the original graph by the intersection of the node sets. |
| DependencyGraph.ComplementEdges | src/principal_feature_analysis/pfa1.py:256 | The complement has no edge exactly when the graph is complete, that is, when every two distinct nodes are adjacent. |
| DependencyGraph.ReachableSym | src/principal_feature_analysis/pfa1.py:246 | Reachability in an undirected graph is symmetric. |
| DependencyGraph.ReachableTrans | src/principal_feature_analysis/pfa1.py:246 | Reachability is transitive. |
| DependencyGraph.ComponentOfMember | src/principal_feature_analysis/pfa1.py:246 | Two nodes in one connected component have the same component. |
| DependencyGraph.ComponentConnected | src/principal_feature_analysis/pfa1.py:246 | The subgraph induced by a connected component is connected. |
| DependencyGraph.ComponentListExists | src/principal_feature_analysis/pfa1.py:246 | Every graph has a list of its connected components, each listed once. So the contract assumed of connected_components can be met. |
| DependencyGraph.ComponentSubgraphs | src/principal_feature_analysis/pfa1.py:246 | The subgraphs of the components are connected and pairwise disjoint, and together they hold every node of the graph. |
| DependencyGraph.NodeCutExists | src/principal_feature_analysis/pfa1.py:270 | A connected graph that is not complete has a node cut. |
| DependencyGraph.MinimumNodeCutExists | src/principal_feature_analysis/pfa1.py:270 | A connected graph that is not complete has a minimum node cut. So the contract assumed of minimum_node_cut can be met. |
| GraphPartitioner.IndexOf | src/principal_feature_analysis/pfa1.py:274 | `list.remove` deletes the first position that holds the graph: no earlier position holds it. |
| GraphPartitioner.ComponentPieces | src/principal_feature_analysis/pfa1.py:246 | The components of an induced subgraph are non-empty, connected, induced subgraphs of the dependency graph. They are pairwise disjoint and hold exactly the subgraph's nodes. |
| GraphPartitioner.ComponentsClosed | src/principal_feature_analysis/pfa1.py:277 | If an induced subgraph has no edge to a node outside it that is not deleted, neither has any of its connected components. |
| GraphPartitioner.CutPieces | src/principal_feature_analysis/pfa1.py:270-277 | The library's cut of a non-complete piece is a minimum node cut inside it. The components of what remains are pieces of the dependency graph, pairwise disjoint, holding exactly the piece's nodes outside the cut. If the piece had no edge to a node outside it that is not deleted, the same holds for each component once the cut counts as deleted. |
| GraphPartitioner.Classify | src/principal_feature_analysis/pfa1.py:255-260 | Each new subgraph is appended to the list to divide when it is not complete, and to the complete list when it is. The lists keep what they held, and what they gain is exactly the new subgraphs: every appended graph is one of them, and the lengths grow by their number. The lists stay disjoint and classified, and their nodes grow by exactly the new subgraphs' nodes. |
| GraphPartitioner.Divide | src/principal_feature_analysis/pfa1.py:270-284 | Dividing one subgraph takes it off the list to divide and deletes the library's minimum node cut of it. Exactly the components of what remains (`Remainder`) are appended, each to the list its completeness selects. The lists stay classified and closed, with the cut counted as deleted. Their nodes lose exactly the cut, and every other graph on them stays. |
| GraphPartitioner.DividePass | src/principal_feature_analysis/pfa1.py:267-285 | A pass divides every graph of the snapshot of the list to divide exactly once: the graphs it logs are a permutation of the snapshot. The nodes it deletes are exactly the cuts it logs, each the library's minimum node cut of a connected, non-complete, induced subgraph that, when it was divided, shared no node with the earlier cuts and had no edge to a node outside it that was not deleted. It keeps the loop invariant, deletes at least one node (so the outer loop ends), and never takes a graph off the complete list. |
| GraphPartitioner.Start | src/principal_feature_analysis/pfa1.py:246-260 | The two lists hold exactly the subgraphs of the connected components of the graph. Each component is on the list its completeness selects, and the lengths add up to the number of components. This establishes the loop invariant with nothing deleted. |
| GraphPartitioner.Finished | src/principal_feature_analysis/pfa1.py:264 | When nothing is left to divide, the complete list is a decomposition of the graph. |
| GraphPartitioner.Pfa1 | src/principal_feature_analysis/pfa1.py:225-292 | The result is a decomposition. Every subgraph is non-empty, connected, complete and induced. No edge leaves a subgraph except into a deleted node, so the subgraphs are the connected components of the graph once the deleted nodes are gone. The subgraphs are disjoint, and they and the deleted nodes cover every node exactly once. There is at least one subgraph when the graph has a node, and complete components are returned unchanged. The deleted nodes are exactly the union of the library's minimum node cuts of the subgraphs that were divided (the log). Each divided subgraph was, at the time, a connected component of the graph without the nodes deleted before it. The node and edge lists match the subgraphs, and the number of passes is at most the number of deleted nodes. |
| GraphPartitioner.CompleteComponentSurvives | src/principal_feature_analysis/pfa1.py:255-260 | A connected component that is complete from the start is one of the returned subgraphs, and none of its nodes is deleted. |
| GraphPartitioner.EdgelessDecomposition | src/principal_feature_analysis/pfa1.py:225-292 | If no two features depend on each other, nothing is deleted and every feature is returned as a subgraph of its own. |
| GraphPartitioner.CompleteGraphDecomposition | src/principal_feature_analysis/pfa1.py:225-292 | If every feature depends on every other, the whole graph is returned as the only subgraph and nothing is deleted. |
| GraphPartitioner.NoEdgeBetween | src/principal_feature_analysis/pfa1.py:225-292 | No edge of the dependency graph joins two different returned subgraphs. |
| GraphPartitioner.ReturnedAreComponents | src/principal_feature_analysis/pfa1.py:225-292 | Each returned subgraph is exactly the connected component, in the graph without the deleted nodes, of any of its nodes. |
| GraphPartitioner.LoggedPiecesAreComponents | src/principal_feature_analysis/pfa1.py:264-277 | Each subgraph that pfa1 divides is, at that moment, exactly the connected component of any of its nodes in the graph without the nodes deleted by the earlier divisions. |
| GraphPartitioner.CutsDisjoint | src/principal_feature_analysis/pfa1.py:270-276 | No node is deleted by two divisions: the logged minimum node cuts are pairwise disjoint, so the deleted nodes split into exactly one cut per division. |
| GraphPartitioner.PathOnlyPiece | src/principal_feature_analysis/pfa1.py:264-270 | On the path 0 - 1 - 2, the only connected, non-complete induced subgraph, and so the only graph that is ever divided, is the whole path. |
| GraphPartitioner.PathMinimumCut | src/principal_feature_analysis/pfa1.py:270 | The only minimum node cut of the path 0 - 1 - 2 is its middle node. |
| GraphPartitioner.PathGraphDecomposition | src/principal_feature_analysis/pfa1.py:225-292 | On the path 0 - 1 - 2, every result pfa1 can produce deletes exactly node 1 and returns `{0}` and `{2}` as subgraphs of their own, whatever order it divides in. |
| Pipeline.Pfa1Full | src/principal_feature_analysis/pfa1.py:187-223 | Fails exactly when the choice of test fails, with the same error. Otherwise it returns a decomposition of the dependency graph built from the corrected p-values, in the sense of `GraphPartitioner.Pfa1`: the subgraphs are the complete connected components left once the logged minimum node cuts are deleted, and each logged subgraph was a connected component of the graph without the earlier cuts when it was divided. The node and edge lists match the subgraphs. |
| Pipeline.ClustersAreSignificant | src/principal_feature_analysis/pfa1.py:218-223 | For at least two features and alpha at most 1, any two features in one returned subgraph passed their test after the correction. |
| Pipeline.EveryFeatureAccounted | src/principal_feature_analysis/pfa1.py:288-292 | A feature is deleted exactly when it is in no returned subgraph. Otherwise it is in exactly one. |

## Left out

- Printing: the messages at lines 168, 219-220, 248, 271-273, 287 and 289 are not modelled.
- The statistics: scipy's `pearsonr`, `spearmanr` and `kendalltau` and custom functions such as `ex_cor_fun` are function parameters. Their keyword arguments (`**kwargs`) are taken as already bound into them.
- CorrelationEngine.CorMat: a correlation function that raises an exception (a custom callable, or a scipy test that rejects its input) aborts `cor_mat`, `cor_adj_mat` and `pfa1_full` at line 133 with no result. The tests here are total functions, so the model fails only on a bad `meth`. The same holds for `AdjacencyBuilder.CorAdjMat` and `Pipeline.Pfa1Full`.
- Floating point: data, statistics and p-values are reals. Rounding in `P * n_cmb` and NaN p-values, which compare false against alpha, are not modelled.
- The input array: a numpy array is always rectangular, so the model requires a rectangular matrix. A non-2-D input is not modelled.
- networkx internals: `connected_components` and `minimum_node_cut` are parameters constrained only by their contracts (`LibSound`). Which minimum cut is picked among several is left to the library. The edge weights that `from_numpy_matrix` attaches are not modelled.
- Randomness: `random.seed` (line 245) and the orders produced by `random.sample` (lines 255 and 269) are not modelled. The components and each pass's snapshot are taken in an arbitrary order, so every result holds for every order.
- Order of nodes and edges: each graph's nodes and edges are sets, and undirected edges are stored as `(smaller, larger)` pairs. The order networkx lists them in is not modelled. The order of the returned subgraphs is kept.
- In-place mutation: `remove_node` (lines 275-276) becomes a new graph value. The graph removed from the list at line 274 is not referenced anywhere else, so no aliasing is lost. `list.remove` compares graph objects, which the model does by value. This matches because the listed graphs are non-empty and pairwise disjoint, so no two are equal.
- The demonstration block at the end of the file (lines 294-335) only prints examples, so it is not modelled.
- `list_nodes_complete_sub_graphs` (lines 252, 260, 284) is built but never returned, so it is not modelled.
- `n_iter` is kept only as a ghost pass count (`passes` in `GraphPartitioner.Pfa1`), because the source only prints it.
- GraphPartitioner.Pfa1: the deleted nodes and the pass count are ghost outputs, because the source does not return them.
