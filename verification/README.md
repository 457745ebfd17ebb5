# Paris hierarchical clustering, modelled in Dafny

This project models the core of the Paris hierarchical graph clustering:

- **Dendrogram builder.** `paris` contracts mutual nearest neighbours of a weighted graph along a nearest-neighbour chain. The distance is `w[a]·w[b]/weight(a,b)/wtot`. Nodes left without a neighbour are finished components, joined at infinite distance at the end. `reorder_dendrogram` then sorts the rows by distance and renames the internal nodes.
- **Slicers.** They turn a dendrogram into partitions of the leaves:
  - a single node (cluster cut);
  - a number of merges (homogeneous cut);
  - a set of nodes at different heights (heterogeneous cut);
  - a distance threshold.

  They also score every cut from one bottom-up pass over the rows, pick the best cut or rank them all, and filter a ranking.

A dendrogram is a sequence of `Record(left, right, dist, size)` rows. With n leaves `0..n-1`, row t creates node `n+t`, and the root is `2n-2`. Distances are `Finite(r)` or the `Inf` of a synthetic join. `WellFormed` says:

- a row merges only nodes that exist before it;
- no id is merged twice.

The materialisers' insertion-ordered Python dictionary is a list of `(id, leaves)` pairs. A pop removes an entry and an insertion of a new key appends one. The functions `scoring`, `mean`, `scaling` and the jump scoring of the naive baselines are function parameters over exact reals.

Files:

- **Shared definitions:**
  - `dendrogram.dfy`: rows and well-formedness.
  - `cluster_dicts.dfy`: the dictionary replay and its partitions.
  - `scores.dfy`: the scoring pass and the telescoping running score.
  - `selection.dfy`: running maximum and `argmax`.
  - `sorting.dfy`: stable sorting.
  - `ranking_filter.dfy`: the greedy filter.
  - `collections.dfy`: sequence helpers.
- **`paris/paris.py`:**
  - `paris_graph.dfy`: graph, weights, nearest neighbour, contraction.
  - `paris_builder.dfy`: the chain loop and the component joins.
  - `paris_reducible.dfy`: reducibility of the distance along the chain.
  - `reorder.dfy`: `reorder_dendrogram`.
- **One file per slicer:**
  - `cluster_cut.dfy` and `homogeneous_checked.dfy`: the two slicers of the `python_paris` package.
  - `homogeneous.dfy`, `heterogeneous.dfy` and `distance.dfy`: the slicers of the `paris` package.

The two packages differ, and each file is modelled as written:

- **Where leaves start.** Leaves start at distance 0 in `python_paris/*` and in `best_distance`. They start at distance 1 in the `paris/` homogeneous and heterogeneous scorers and in `ranking_distances`.
- **Range checks.** Only the `python_paris` materialisers raise `ValueError` on an out-of-range cut.

## Model

| member | source | states |
|---|---|---|
| ParisGraph.InitialWeights | paris/paris.py:29-35 | `w` has the keys 0..n-1. `w[x]` is the sum of the weights of x's incident edges, a self-loop counted twice. `wtot` is twice the sum of the edge weights. |
| ParisGraph.AddEdgeWeight | paris/paris.py:31-35 | One edge adds its weight to both of its ends and twice to the total. The sums stay those of the edges seen so far. |
| ParisGraph.TotalIsSumOfWeights | paris/paris.py:29-35 | `wtot` equals the sum of all node weights `w[0] + ... + w[n-1]`. |
| ParisGraph.TotalPositive | paris/paris.py:31-35 | With positive edge weights, the total is positive exactly when there is an edge, and 0 otherwise. |
| ParisGraph.EdgeMapIsGraph | paris/paris.py:24-27 | The adjacency built from a valid edge list is a symmetric graph on 0..n-1 with positive weights and no self-loop. |
| ParisGraph.Neighbours | paris/paris.py:47 | v is a neighbour of a exactly when the edge (a, v) exists. |
| ParisGraph.NearestNeighbour | paris/paris.py:44-56 | `b = -1` exactly when a has no neighbour, and then `d_min = inf`. Otherwise b minimises `w[v]·w[a]/weight(a,v)/wtot`, the smallest id wins ties, and `d_min` is that distance. |
| ParisGraph.VisitNeighbour | paris/paris.py:48-55 | After each visited neighbour, b is the nearest of the neighbours visited so far, the smallest id among equally near ones, and `d_min` is its distance. Before the first visit they are `(-1, inf)`. |
| ParisGraph.RemoveNode | paris/paris.py:71-86 | The graph keeps exactly the edges that do not touch x, with their weights. |
| ParisGraph.JoinNeighboursOfA | paris/paris.py:64-65 | u gains an edge to every neighbour of a, with a's weight, in both directions. Every other edge is kept. |
| ParisGraph.JoinNeighboursOfB | paris/paris.py:66-70 | For every neighbour v of b, `weight(u,v)` becomes the weight u already had, or 0, plus `weight(b,v)`, symmetrically. No edge away from u changes. |
| ParisGraph.Contract | paris/paris.py:61-72 | After contraction, a and b are gone. Every other neighbour v of a or b has `weight(u,v) = weight(a,v) + weight(b,v)`, a missing edge counting 0. No other edge changes. |
| ParisGraph.ContractedIsGraph | paris/paris.py:61-72 | The contracted adjacency is a graph on the live nodes with a and b replaced by u. |
| ParisBuilder.StartState | paris/paris.py:24-40 | Initial state: adjacency from the edge list, nodes 0..n-1, each of size 1, `w[x]` the sum of x's incident weights, `wtot = 2·Σ weights`, nothing built. The state invariant, reducibility and the size bookkeeping hold. |
| ParisBuilder.Merge | paris/paris.py:59-76 | Merge a and b. The row `[a, b, d, s[a]+s[b]]` is appended. The graph is contracted into `u = n + |D|`, with `w[u] = w[a]+w[b]` and `s[u] = s[a]+s[b]`. a and b leave the node list and u joins it, so it is one shorter. The next id is u+1, and the state invariant is kept. |
| ParisBuilder.Retire | paris/paris.py:84-89 | `(a, s[a])` is appended to the components. a leaves the weights, the sizes and the node list, which is one shorter. The graph is unchanged, since a had no edge, and the state invariant is kept. |
| ParisBuilder.MergeNearest | paris/paris.py:57-76 | The merge branch, when a's nearest neighbour b is directly beneath it on the chain. It appends `[a, b, d, s[a]+s[b]]`, d being the Paris distance of a and b. The graph is contracted into `u = n + |D|`, with `w[u] = w[a]+w[b]` and `s[u] = s[a]+s[b]`, and a and b are popped. One live node is dropped. The state invariant, finite rows and reducibility with the chain below the pair all hold. The trace is extended by the contracted graph and weights. |
| ParisBuilder.PushStep | paris/paris.py:77-83 | Pushing a's nearest neighbour, or `-1`, above a is the push outcome: the chain grows by b and nothing else changes. The chain stays linked, with `-1` only on top. |
| ParisBuilder.RetireAlone | paris/paris.py:84-89 | The retire outcome, for a alone on the chain with no neighbour. `(a, s[a])` is appended to the components, and a leaves the weights, the sizes and the node list. The graph and the rows are unchanged and the chain is empty. The state invariant, reducibility and the trace all hold. |
| ParisBuilder.ChainStep | paris/paris.py:43-89 | One pop of the chain, top a. It is an error exactly when a is no longer in the graph. Otherwise `b = -1` exactly when a has no neighbour, and b is a's nearest neighbour when it is not `-1`. The new state is the merge outcome when b is directly beneath a, the retire outcome when a was alone with no neighbour, and the push outcome otherwise, each stated in full. The step keeps the state invariant, reducibility and the trace, never adds live nodes, and removes one whenever the chain empties. |
| ParisBuilder.StepExtends | paris/paris.py:57-89 | A chain step appends at most one row and at most one component, keeping the earlier ones. It appends a component only as the chain empties. |
| ParisBuilder.StepKeepsSizes | paris/paris.py:57-89 | A chain step keeps the size bookkeeping: every row's size is the sum of the sizes of its two operands, `s[x]` is the size of each live node x, and each component's size is that of its id. |
| ParisBuilder.RoundStep | paris/paris.py:43-89 | A chain step as its round uses it: it keeps the state invariant, reducibility, the trace and the size bookkeeping. It appends at most one row and one component, the latter only as the chain empties. |
| ParisBuilder.ChainRound | paris/paris.py:42-89 | One round of `while n_nodes > 0`. On success the rows and the components only grow at the end, with at most one component. The live count drops by one per new row and one per new component, and by at least one in all. Every new row extends the trace: a nearest-neighbour merge in the graph of its time, contracted into the next graph. The invariant, reducibility and the size bookkeeping are kept. |
| ParisBuilder.ChainLoop | paris/paris.py:41-89 | The loop ends with every leaf in a row or a component: there are n - |cc| rows, the component sizes add up to n, and no row merges a component. All rows are finite, and each row merges nodes built no farther than itself. The rows are traced from the input graph and the initial weights `w[x]` down to the empty graph. Each row t merges a node with its nearest neighbour in graph t, at their Paris distance, and graph t+1 is their contraction into n+t. Each row's size is the sum of its operands' sizes and is the number of leaves under node n+t. Each component `(a, size)` records the number of leaves under a. |
| ParisBuilder.Drained | paris/paris.py:41 | When no live node is left, the graph is empty and every leaf is in a row or a finished component. |
| ParisBuilder.TracedRows | paris/paris.py:44-76 | Every row t of a trace merges a node with its nearest neighbour in graph t, at their Paris distance with the weights of step t. Graph t+1 and the weights of step t+1 are their contraction into n+t. |
| ParisBuilder.TracedMerge | paris/paris.py:57-76 | A merge of a with its nearest neighbour b extends a trace that ends at the current graph by one row, one graph and one weight map. The first graph and weights are kept. |
| ParisBuilder.NearestAgrees | paris/paris.py:48-55 | The nearest neighbour and its distance only read the weights of nodes with an edge. Weights that agree on the live nodes give the same nearest neighbour at the same distance. |
| ParisBuilder.MergedAgrees | paris/paris.py:57-76 | A merge of a with its nearest neighbour b, read against weights that agree on the live nodes, is a row of a trace. |
| ParisBuilder.ContractionAgrees | paris/paris.py:74 | Adding `w[a] + w[b]` as u's weight in two weight maps that agree on the live nodes keeps them agreeing. |
| ParisBuilder.MergeKeepsBuilding | paris/paris.py:57-76 | The merge keeps the state invariant: live count, sizes adding up to n, rows built, graph and weights on the live nodes. |
| ParisBuilder.RemovalKeepsBuilding | paris/paris.py:84-89 | Retiring a node without neighbours keeps the state invariant. |
| ParisBuilder.MergeKeepsSizesKept | paris/paris.py:60-75 | The row `[a, b, d, s[a]+s[b]]` and `s[u] = s[a]+s[b]` keep the size bookkeeping: the new row has the size of its two operands, u gets that size, and every earlier row, live node and component keeps its size. |
| ParisBuilder.StartSizesKept | paris/paris.py:36-39 | Before any row, n leaves of size 1 satisfy the size bookkeeping. |
| ParisBuilder.RetireKeepsSizesKept | paris/paris.py:85-88 | Retiring a as the component `(a, s[a])` keeps the size bookkeeping. |
| ParisBuilder.SizeCountsLeaves | paris/paris.py:17-18 | When every row has the size of its two operands, the size of an id is the number of leaves under it. |
| ParisBuilder.UnderComplete | paris/paris.py:17-18 | Once n-1 rows are built, the leaves under an id are those that the slicers compute for `cluster[x]`. |
| ParisBuilder.SizesCounted | paris/paris.py:17-18 | Every row's size is the number of leaves under the node it creates, and every component's size is the number of leaves under its id. |
| ParisBuilder.MergeKeepsSizes | paris/paris.py:75 | With u of size `s[a]+s[b]`, the sizes of the live nodes and of the components still add up to n. |
| ParisBuilder.MergeKeepsNodes | paris/paris.py:71-73 | Replacing a and b by u leaves distinct ids below u+1, one fewer. |
| ParisBuilder.MergeKeepsCarried | paris/paris.py:61-75 | After the contraction, the graph, `w` and `s` are all on the new live nodes, and `wtot` is non-zero while an edge is left. |
| ParisBuilder.RemovalKeepsSizes | paris/paris.py:85-89 | Moving a to the components with size `s[a]` keeps the sizes adding up to n. |
| ParisBuilder.MergeKeepsReducible | paris/paris.py:44-76 | Contracting mutual nearest neighbours keeps three things: every edge no shorter than the row that built each of its ends, every row no nearer than its children, and the chain below the pair linked. |
| ParisBuilder.PushKeepsReducible | paris/paris.py:77-83 | Pushing a's nearest neighbour, or `-1`, keeps every link of the chain a nearest-neighbour link. |
| ParisBuilder.RetireKeepsReducible | paris/paris.py:84-89 | Retiring a node without neighbours keeps the rest reducible, with an empty chain. |
| ParisBuilder.JoinComponents | paris/paris.py:91-96 | The join fails exactly when there is no component (`cc.pop()` on an empty list). Otherwise the rows are the chain rows followed by `[a, b, inf, s]` joins. The first `a` is the last component, and later `a`s are the ids just created. `b` runs over the other components in discovery order, and `s` accumulates their sizes. |
| ParisBuilder.JoinRow | paris/paris.py:91-96 | Join k merges component k with the last component (k = 0) or with node `n+|D|+k-1`. It is at infinite distance and carries the accumulated size. No chain row merges component k, nor, for k = 0, the last component. |
| ParisBuilder.JoinedWellFormed | paris/paris.py:91-96 | The joined dendrogram has n-1 rows and is well formed. When there are several components, its last row has size n. |
| ParisBuilder.JoinedChildrenNoFarther | paris/paris.py:91-98 | In the joined rows, every child is built no farther than its parent, which is what the reordering needs. |
| ParisBuilder.JoinsAtInfinity | paris/paris.py:91-96 | Every row after the chain rows is at infinite distance. |
| ParisBuilder.JoinSize | paris/paris.py:91-96 | Join k has the size of its two operands: the accumulated `s` is the size of the last component or of the previous join, plus that of component k. |
| ParisBuilder.JoinedSizes | paris/paris.py:91-96 | Every row of the joined dendrogram, chain row or join, has the size of its two operands. |
| ParisBuilder.JoinedSizesCount | paris/paris.py:91-96 | The joined dendrogram has n-1 rows, is well formed, and every row's size is the number of leaves under the node it creates. |
| ParisBuilder.SizesComplete | paris/paris.py:17-18 | In a well-formed dendrogram of n-1 rows where every row has the size of its operands, every row's size is the number of leaves under its node. |
| ParisBuilder.JoinAndReorder | paris/paris.py:91-98 | The end of `paris`. For n < 2 it is an error. Otherwise the raw rows are the chain rows followed by joins at infinite distance, well formed, and the result is their reordering. It has n-1 rows, non-decreasing distances, renamed nodes that keep their leaves, and sizes that count the leaves under their nodes, before and after the reordering. |
| ParisBuilder.JoinedReordered | paris/paris.py:91-98 | The joined rows have n-1 rows and are well formed. Their reordering has non-decreasing distances, is well formed, and every renamed node keeps its leaves. Every size counts the leaves under its node, before and after the reordering. |
| ParisBuilder.Paris | paris/paris.py:5-98 | For n < 2 the result is an error. Otherwise it has n-1 rows and equals `reorder_dendrogram` of the raw rows, which are well formed. The distances do not decrease, the result is well formed, and every renamed node keeps its leaves. Every row's size is the number of leaves under the node it creates, both in the raw rows and in the result. The raw rows start with the chain rows, traced from the input graph to the empty graph, and the rows after them are at infinite distance. |
| ParisReducibility.Mediant | paris/paris.py:66-74 | Any lower bound on both a's and b's distance to v also bounds the contracted node's distance to v. |
| ParisReducibility.NewNodeFar | paris/paris.py:61-76 | No edge at the new node u is shorter than a bound that holds for every edge at a and at b. |
| ParisReducibility.OtherNodeFar | paris/paris.py:61-76 | A node other than a and b keeps every lower bound on its edge lengths: its edge to u is no shorter than the shorter of its edges to a and b. |
| ParisReducibility.ContractionNoCloser | paris/paris.py:57-76 | After a mutual-nearest merge, every edge at a built node is no shorter than the row that built it. |
| ParisReducibility.ContractionRowsNoFarther | paris/paris.py:57-60 | The new row `[a, b, d(a,b), size]` merges nodes built at distances no larger than d(a,b). |
| ParisReducibility.ContractionChainLinked | paris/paris.py:57-80 | The chain below the merged pair still links each node to a nearest neighbour. |
| ParisReducibility.RemovalReducible | paris/paris.py:84-89 | Retiring a node without neighbours keeps every other distance and leaves the rest reducible, with an empty chain. |
| ParisReducibility.StartReducible | paris/paris.py:24-40 | The initial graph and weights, with no rows and an empty chain, are reducible. |
| Reordering.SortOrder | paris/paris.py:121-125 | `index` is a permutation of the rows, ordered by distance with ties by row number, as `np.lexsort` produces. |
| Reordering.NewId | paris/paris.py:126-127 | Leaves keep their id. Internal node `n+index[t]` becomes `n+t`. |
| Reordering.NewIdInjective | paris/paris.py:126-127 | The renaming is one-to-one on node ids. |
| Reordering.Reorder | paris/paris.py:121-128 | Row t of the result is old row `index[t]` with both operands renamed, and its distance and size carried over. |
| Reordering.ReorderSorted | paris/paris.py:121-128 | The result's distances are non-decreasing, and rows of equal distance keep their original order. |
| Reordering.ReorderIsPermutationOfRows | paris/paris.py:128 | Every old row appears in the result with its distance and size. |
| Reordering.ReorderOfSorted | paris/paris.py:121-128 | On rows already sorted by distance the reordering is the identity. |
| Reordering.ReorderWellFormed | paris/paris.py:121-128 | When children are no farther than their parents, the reordered dendrogram is well formed. |
| Reordering.ReorderKeepsLeaves | paris/paris.py:126-128 | The renamed node of x has exactly the leaves x had. |
| Reordering.ReorderKeepsSizes | paris/paris.py:121-128 | When every size counts the leaves under its node, the same holds after the reordering. |
| Reordering.ReorderedSize | paris/paris.py:121-128 | Row k of the result has as its size the number of leaves under the renamed node n+k. |
| Reordering.MovedRow | paris/paris.py:126-128 | Row k of the result carries the size of some old row t, whose node is renamed n+k. |
| Dendrograms.EveryNonRootIdAbsorbedOnce | python_paris/cluster_cut_slicer.py:145-173 | In a well-formed dendrogram, the absorbed operands list every id 0..2n-3 exactly once and never the root. |
| Dendrograms.OperandsAlive | python_paris/cluster_cut_slicer.py:32-34 | Both operands of row t are distinct clusters of the partition after t merges, so both pops succeed. |
| Dendrograms.RootNeverConsumed | python_paris/cluster_cut_slicer.py:81-109 | No row merges the root. |
| Dendrograms.LeavesUnderAreLeaves | python_paris/cluster_cut_slicer.py:32-36 | The leaf list of a node is non-empty and holds leaves no larger than the node. |
| ClusterDicts.Singletons | python_paris/cluster_cut_slicer.py:32 | `{u: [u] for u in range(n)}`: n entries, entry i is `(i, [i])`. |
| ClusterDicts.MergeRow | python_paris/cluster_cut_slicer.py:34 | `cluster[n+t] = cluster.pop(l) + cluster.pop(r)` turns the dictionary after t rows into the dictionary after t+1 rows. |
| ClusterDicts.ReplayIsClusters | python_paris/homogeneous_cut_slicer.py:28-34 | After t merges, the dictionary maps each cluster to the leaves under it. The clusters are the surviving leaves ascending, then the merged clusters in creation order. |
| ClusterDicts.ClustersStep | python_paris/homogeneous_cut_slicer.py:29-32 | A merge removes its two operands from the clusters and appends the new node. |
| ClusterDicts.ClustersCount | python_paris/homogeneous_cut_slicer.py:29-32 | After t merges there are n-t clusters. |
| ClusterDicts.ClustersAtEnd | python_paris/homogeneous_cut_slicer.py:29-32 | After all merges the root is the only cluster. |
| ClusterDicts.ReplayIsPartition | python_paris/homogeneous_cut_slicer.py:28-34 | Every dictionary the replay goes through holds a partition of 0..n-1: non-empty groups holding each leaf exactly once. |
| ClusterDicts.ClustersCoverLeaves | python_paris/homogeneous_cut_slicer.py:28-34 | The leaves under the clusters after t merges are each leaf exactly once. |
| ClusterDicts.ReplaySize | python_paris/homogeneous_cut_slicer.py:28-34 | After t merges the partition has n-t groups. |
| ClusterDicts.ReplayNone | python_paris/tests/test_homogeneous_cut_slicer.py:13-14 | With no merge, the groups are the n singletons in leaf order. |
| ClusterDicts.ReplayAll | python_paris/tests/test_homogeneous_cut_slicer.py:19-20 | After all merges there is a single group: the root's leaves, each leaf once. |
| ClusterDicts.ReplayNewest | python_paris/cluster_cut_slicer.py:34-36 | Right after row t, `cluster[n+t]` holds the leaves under node n+t. |
| ClusterDicts.ReplayKeys | python_paris/homogeneous_cut_slicer.py:33 | The keys of the dictionary after t merges are the clusters of that partition, in dictionary order. |
| ClusterDicts.ReplayGroups | python_paris/homogeneous_cut_slicer.py:33 | `[cluster[c] for c in cluster]` after t merges is the list of the leaves under each cluster. |
| ClusterCutSlicer.ClusteringFromClusterCut | python_paris/cluster_cut_slicer.py:26-36 | The result is a ValueError exactly when `cut < 0` or `cut > 2n-2`. Otherwise it is the leaves under node `cut`: `[cut]` for a leaf, and the left leaves followed by the right leaves of row t for `cut = n+t`. |
| ClusterCutSlicer.ClusterOfCut | python_paris/tests/test_cluster_slicer.py:13-26 | An accepted cut gives a non-empty cluster of leaves no larger than the cut. The root's cluster holds every leaf once. |
| ClusterCutSlicer.AbsorbRow | python_paris/cluster_cut_slicer.py:82-109 | One row pops both operands and scores each: `scoring(size, row distance, own distance)` when the own distance is positive, and 0 otherwise. It stores the new node, so the live records stay the clusters of the next partition. |
| ClusterCutSlicer.LiveTreesStep | python_paris/cluster_cut_slicer.py:84-109 | Both operands are live records, and the new node's record is `(n+t, row distance, row size, 0)`. |
| ClusterCutSlicer.BestClusterCut | python_paris/cluster_cut_slicer.py:77-111 | The result is the first node, in absorption order (left before right), with the strictly largest score when that score is positive. Otherwise it is `(-1, 0.)`. |
| ClusterCutSlicer.ScanRow | python_paris/cluster_cut_slicer.py:81-109 | One row of the scan: the left operand, then the right one, each replacing the best only when its score is strictly larger. |
| ClusterCutSlicer.ScanIsFirstStrictMax | python_paris/cluster_cut_slicer.py:78-104 | The scan's best is the first strict maximum of the absorbed scores above 0, and its node is the one absorbed at that position. |
| ClusterCutSlicer.AbsorbedScoresAreFinal | python_paris/cluster_cut_slicer.py:90-101 | The score recorded at absorption is the node's final score. |
| ClusterCutSlicer.BestIsMergedNode | python_paris/cluster_cut_slicer.py:78-111 | A positive best cut is a merged node in `[n, 2n-3]`: never a leaf, since leaves score 0, and never the root. |
| ClusterCutSlicer.RankingClusterCuts | python_paris/cluster_cut_slicer.py:141-176 | The ranked cuts list every id 0..2n-3 exactly once. They are the absorption order stably sorted by non-increasing score. `ranked_cut_scores[i]` is the final score of `ranked_cuts[i]`, and the scores do not increase. |
| ClusterCutSlicer.RankedCutsAreNodes | python_paris/cluster_cut_slicer.py:142-173 | The ranking is every node but the root, each once. |
| ClusterCutSlicer.RankedCutScores | python_paris/cluster_cut_slicer.py:159-174 | Each ranked node is paired with its own score, and the scores are non-increasing. |
| ClusterCutSlicer.BestHeadsRanking | python_paris/cluster_cut_slicer.py:173-174 | A positive best cut is the head of the ranking. |
| Scores.BuildClusterTrees | python_paris/homogeneous_cut_slicer.py:77-100 | The records map exactly the ids 0..2n-2, nothing popped. Each record has its own distance and size, the score its absorbing row gave it (0 if not absorbed), and `old_score`, the sum of its children's scores. |
| Scores.ScoreRow | python_paris/homogeneous_cut_slicer.py:78-100 | One row scores both operands and stores the new node with `old_score` = the sum of their scores. |
| Scores.TreeStep | python_paris/homogeneous_cut_slicer.py:81-100 | Row t changes only its operands' scores and creates the new node with score 0 and `old_score` = the sum of the operands' scores. |
| Scores.OldScoreIsChildrenScores | python_paris/homogeneous_cut_slicer.py:97 | A merged node's `old_score` is the sum of its children's final scores. |
| Scores.AbsorbedScoreStays | python_paris/homogeneous_cut_slicer.py:81-100 | Once a row absorbs x, x keeps the score that row gave it. |
| Scores.RootScoreZero | python_paris/homogeneous_cut_slicer.py:77-100 | The root's score is never written and stays 0. |
| Scores.LeafScoreZero | python_paris/cluster_cut_slicer.py:80-93 | With leaves at distance 0, a leaf always scores 0. |
| Scores.ScanLevels | python_paris/homogeneous_cut_slicer.py:102-111 | The running score is tested before each update. The result is the first strict maximum of the tested scores, from `(0, 0.)`, so the score after the last merge is never tested. |
| Scores.LevelScores | python_paris/homogeneous_cut_slicer.py:167-172 | `cut_scores[t]` is the running score before update t. |
| Scores.TreeRunningScoresAreRunningScores | python_paris/homogeneous_cut_slicer.py:104-109 | The running scores the loop computes from the records are the model's running scores. |
| Scores.RunningTelescopes | python_paris/homogeneous_cut_slicer.py:104-109 | The running score at step t equals the sum of the cluster scores after t merges minus that of the leaves. |
| Scores.RunningIsClusterScore | python_paris/homogeneous_cut_slicer.py:104-109 | With leaves at distance 0, the running score at step t is the sum of the scores of the clusters after t merges. |
| Scores.RunningIsClusterScoreLessLeaves | paris/homogeneous_cut_slicer.py:54-61 | With any leaf distance, the running score at step t is the cluster scores after t merges minus the sum of the leaf scores. |
| Scores.JumpScores | paris/homogeneous_cut_slicer.py:108 | `scoring(D[1:,2], D[:-1,2])`: entry t is the jump from merge t to merge t+1, with n-2 entries. |
| Selection.ArgMax | paris/homogeneous_cut_slicer.py:109-110 | `np.argmax` is the first position holding the maximum. |
| Selection.FirstStrictMaxExtend | python_paris/cluster_cut_slicer.py:94-96 | One more test of the scan keeps the first strict maximum. |
| Selection.FirstStrictMaxUnique | python_paris/cluster_cut_slicer.py:94-104 | The scan has a single outcome. |
| Sorting.ArgSortIsStableSort | paris/paris.py:122-125 | The sort order is a permutation of the positions with non-decreasing keys, and equal keys in position order. |
| Sorting.ArgSortOfSorted | paris/paris.py:125 | Keys already in order sort to the identity. |
| Sorting.RankDescendingOrder | python_paris/cluster_cut_slicer.py:173-174 | The descending ranking is a permutation, with non-increasing scores and ties in their original order, as a stable reverse sort gives. |
| Sorting.RankPositions | python_paris/homogeneous_cut_slicer.py:167-177 | Ranking 0..m-1 by score gives each position once, paired with its own score. Scores do not increase, and ties are in ascending position. |
| Sorting.RankHeadIsFirstMax | python_paris/homogeneous_cut_slicer.py:170-175 | When the scan's strict maximum is positive, its position heads the descending ranking. |
| Sorting.RankHeadIsArgMax | paris/homogeneous_cut_slicer.py:109-116 | The head of the descending ranking is the `np.argmax` position. |
| CheckedHomogeneousSlicer.ClusteringFromHomogeneousCut | python_paris/homogeneous_cut_slicer.py:25-34 | The result is a ValueError exactly when `cut < 0` or `cut > n-1`. Otherwise it is the dictionary's groups after `cut` merges. |
| CheckedHomogeneousSlicer.ClusteringIsPartition | python_paris/homogeneous_cut_slicer.py:28-34 | An accepted cut partitions 0..n-1 into n-cut groups. Cut 0 gives the n singletons and cut n-1 gives one group of all leaves. |
| CheckedHomogeneousSlicer.BestHomogeneousCut | python_paris/homogeneous_cut_slicer.py:76-111 | The result is the smallest t in 0..n-2 with a strictly maximal running score, or `(0, 0.)` when none is positive. Leaves are at distance 0. |
| CheckedHomogeneousSlicer.TestedScoreIsPartitionScore | python_paris/homogeneous_cut_slicer.py:104-109 | The score tested at level t is the sum of the scores of that level's clusters. |
| CheckedHomogeneousSlicer.RankingHomogeneousCuts | python_paris/homogeneous_cut_slicer.py:141-177 | The ranked cuts are a permutation of 0..n-2 by non-increasing running score, ties ascending. Each score is the running score of its cut. |
| CheckedHomogeneousSlicer.BestHeadsRanking | python_paris/homogeneous_cut_slicer.py:167-175 | A positive best cut is the head of the ranking. |
| HomogeneousSlicer.ClusteringFromHomogeneousCut | paris/homogeneous_cut_slicer.py:4-12 | No range check. `cut ≤ 0` gives the n singletons. `0 ≤ cut ≤ n-1` gives the groups after `cut` merges. `cut > n-1` reads past the last row: an error. |
| HomogeneousSlicer.BestHomogeneousCut | paris/homogeneous_cut_slicer.py:26-63 | The result is the first strict maximum of the running scores with leaves at distance 1, from `(0, 0.)`. |
| HomogeneousSlicer.TestedScoreIsPartitionScore | paris/homogeneous_cut_slicer.py:54-61 | With leaves at distance 1, the tested score at level t is that level's cluster scores minus the leaf scores. |
| HomogeneousSlicer.RankingHomogeneousCuts | paris/homogeneous_cut_slicer.py:66-104 | The ranked cuts are a permutation of 0..n-2 by non-increasing running score (leaves at distance 1), ties ascending, with aligned scores. |
| HomogeneousSlicer.BestHeadsRanking | paris/homogeneous_cut_slicer.py:94-102 | A positive best cut is the head of the ranking. |
| HomogeneousSlicer.JumpScoresByLevel | paris/homogeneous_cut_slicer.py:108-109 | The jump score of level c is at position c-1. |
| HomogeneousSlicer.NaiveBestHomogeneousCut | paris/homogeneous_cut_slicer.py:107-111 | With fewer than two merges the result is an error (`argmax` of nothing). Otherwise it is `1 +` the first position with the largest jump score, with that score as the maximum. |
| HomogeneousSlicer.RankLevels | paris/homogeneous_cut_slicer.py:115-117 | The levels 1..m, each once, by non-increasing jump score, ties ascending, each with its own score. |
| HomogeneousSlicer.NaiveRankingHomogeneousCuts | paris/homogeneous_cut_slicer.py:114-118 | The levels 1..n-2, each once, by non-increasing jump score, ties ascending, with aligned scores. |
| HomogeneousSlicer.NaiveBestHeadsNaiveRanking | paris/homogeneous_cut_slicer.py:107-118 | With at least two merges, the naive best cut and its score head the naive ranking. |
| HomogeneousSlicer.LevelAxis | paris/homogeneous_cut_slicer.py:122 | `s_index[0] = 0`, and `s_index[t] = scaling(D[t-1]) - scaling(D[0])` for t ≥ 1. |
| HomogeneousSlicer.FilterHomogeneousRanking | paris/homogeneous_cut_slicer.py:121-135 | The result keeps, in ranking order with their scores, exactly the survivors of the greedy filter on `s_index`, with origin 0. |
| RankingFilters.FilterRanking | paris/homogeneous_cut_slicer.py:123-135 | The kept entries and their scores are the ranking and the scores restricted to the survivors, in ranking order. |
| RankingFilters.FilterEntry | paris/homogeneous_cut_slicer.py:125-133 | Entry i is appended with its score exactly when no kept entry is too close to it. |
| RankingFilters.TooCloseToKept | paris/homogeneous_cut_slicer.py:126-130 | `to_exclude` is true exactly when some kept entry s has `abs(key(s) - key(t)) < threshold · (key(s) - origin)`. |
| RankingFilters.SurvivorsNext | paris/homogeneous_cut_slicer.py:125-133 | Entry i is added after the survivors among the first i entries exactly when no survivor excludes it. |
| RankingFilters.SurvivorsKeepFirst | paris/homogeneous_cut_slicer.py:125-133 | The first entry is always kept. |
| RankingFilters.SurvivorsSeparated | paris/homogeneous_cut_slicer.py:125-133 | No kept entry is too close to a kept entry ranked above it. |
| RankingFilters.SurvivorsKeptIff | paris/homogeneous_cut_slicer.py:125-133 | Entry i is kept exactly when no entry kept above it excludes it. |
| RankingFilters.SurvivorsPrefix | paris/homogeneous_cut_slicer.py:125-133 | The entries kept among the first i are a prefix of those kept later, so the ranking order is kept. |
| RankingFilters.DroppedHasWitness | paris/homogeneous_cut_slicer.py:125-133 | A dropped entry is too close to some entry kept above it. |
| HeterogeneousSlicer.Selected | paris/heterogeneous_cut_slicer.py:7-9 | The ids 0..k-1 in the cut, ascending. |
| HeterogeneousSlicer.ClusteringFromHeterogeneousCut | paris/heterogeneous_cut_slicer.py:3-14 | The groups are the cut's leaves ascending, as singletons, then each merged node of the cut in creation order, as the leaves under it. |
| HeterogeneousSlicer.VisitRow | paris/heterogeneous_cut_slicer.py:10-13 | Row t merges into node n+t and emits its leaves when n+t is in the cut. |
| HeterogeneousSlicer.RowGroupsNext | paris/heterogeneous_cut_slicer.py:10-13 | The dictionary entry of n+t is the group of n+t. |
| HeterogeneousSlicer.CutGroupsOfSelected | paris/heterogeneous_cut_slicer.py:3-14 | The emitted groups are the leaves under the selected ids, in id order. |
| HeterogeneousSlicer.CutGroupsAgree | paris/heterogeneous_cut_slicer.py:8-12 | Only the ids 0..2n-2 of a cut matter: ids outside are silently ignored. |
| HeterogeneousSlicer.NoNodeNoGroup | paris/heterogeneous_cut_slicer.py:7-13 | A cut with no id in 0..2n-2, such as `{-1}`, gives `[]` and no error. |
| HeterogeneousSlicer.BestScoreNonNegative | paris/heterogeneous_cut_slicer.py:30-56 | Every best score is ≥ 0. |
| HeterogeneousSlicer.BestCutIds | paris/heterogeneous_cut_slicer.py:30-56 | A node's best cut holds ids of its own subtree. The node itself is in it only if it is a leaf, and no excluded merged node is in it. |
| HeterogeneousSlicer.BestCutCoversLeaves | paris/heterogeneous_cut_slicer.py:44-56 | The leaves under a node's best cut, in cut order, are exactly the leaves under the node: an antichain covering each leaf once. |
| HeterogeneousSlicer.AbsorbCoversLeaves | paris/heterogeneous_cut_slicer.py:44-54 | Absorption keeps or replaces the best cut by the node itself, and it still covers the node's leaves. |
| HeterogeneousSlicer.BestCutIsPartition | paris/heterogeneous_cut_slicer.py:3-14 | Materialising the root's best cut gives a partition of 0..n-1. |
| HeterogeneousSlicer.HetLiveStep | paris/heterogeneous_cut_slicer.py:34-59 | Both operands are live records, and the new node's record is created from them. |
| HeterogeneousSlicer.HetAbsorbRow | paris/heterogeneous_cut_slicer.py:31-59 | One row lets each operand take itself as its best cut when it is not excluded and its score is strictly larger. It stores the sum of the best scores and the concatenated cuts. |
| HeterogeneousSlicer.BestHeterogeneousCut | paris/heterogeneous_cut_slicer.py:28-64 | The result is the root's best cut and score. The score is ≥ 0, the root is absent when n ≥ 2, and no excluded merged node is present. |
| HeterogeneousSlicer.ExcludedGrows | paris/heterogeneous_cut_slicer.py:70-75 | Each round's cut is excluded from every later round. |
| HeterogeneousSlicer.RoundsShareOnlyLeaves | paris/heterogeneous_cut_slicer.py:70-75 | Two rounds can share only leaves, never an internal id. |
| HeterogeneousSlicer.RoundsAreBestCuts | paris/heterogeneous_cut_slicer.py:67-76 | Round m is the best cut with rounds 0..m-1 excluded, with a non-negative score. |
| HeterogeneousSlicer.RankingHeterogeneousCuts | paris/heterogeneous_cut_slicer.py:67-76 | Exactly k cuts and k scores (none for k ≤ 0). Cut i is the best cut with the union of earlier cuts excluded. Scores are ≥ 0, and no internal id is in two cuts. |
| DistanceSlicer.MergesApplied | paris/distance_slicer.py:7-9 | The merges applied stop at the first row whose distance is above the threshold. Every earlier row is at or below it. |
| DistanceSlicer.ClusteringFromDistance | paris/distance_slicer.py:4-12 | The result is the homogeneous partition for the prefix of merges applied. |
| DistanceSlicer.ClusteringFromDistanceIsLevel | paris/distance_slicer.py:4-12 | The result partitions 0..n-1 into n-k groups, where k is the number of merges applied. A threshold below `D[0,2]` gives the n singletons. |
| DistanceSlicer.MoreDistanceMoreMerges | paris/distance_slicer.py:7-9 | A larger threshold never applies fewer merges. |
| DistanceSlicer.AppliedIffAtMost | paris/distance_slicer.py:7-9 | On non-decreasing distances, a merge is applied exactly when its distance is at most the threshold. |
| DistanceSlicer.ThresholdBetweenMerges | paris/distance_slicer.py:7-9 | A threshold between merge i-1 and merge i applies exactly i merges. |
| DistanceSlicer.DistanceScan | paris/distance_slicer.py:54-61 | The scan selects the first strict maximum of the running scores. It reports `mean(D[t-1,2], D[t,2])` for a positive one, with t ≥ 1, so `D[-1]` is never read, and `(0., 0.)` otherwise. |
| DistanceSlicer.BestDistance | paris/distance_slicer.py:26-63 | The result is that scan with leaves at distance 0. |
| DistanceSlicer.BestDistanceMaterialisesBestLevel | python_paris/tests/test_distance_slicer.py:25-28 | On strictly increasing distances, with a mean lying between its arguments, cutting at the best distance gives the best level's partition. |
| DistanceSlicer.LevelDistances | paris/distance_slicer.py:94 | `distances[0] = 0`, and `distances[t] = mean(D[t,2], D[t-1,2])`. |
| DistanceSlicer.RankingDistances | paris/distance_slicer.py:66-105 | n-1 distances, each level's once, by non-increasing running score (leaves at distance 1), with aligned scores. |
| DistanceSlicer.MeanDistances | paris/distance_slicer.py:109 | Entry t is `mean(D[t+1,2], D[t,2])`. |
| DistanceSlicer.NaiveBestDistance | paris/distance_slicer.py:108-113 | With fewer than two merges the result is an error. Otherwise it is the mean distance at the first largest jump score, with that score. |
| DistanceSlicer.NaiveRankingDistances | paris/distance_slicer.py:116-122 | The mean distances, each position once, by non-increasing jump score, with aligned scores. |
| DistanceSlicer.NaiveBestHeadsNaiveRanking | paris/distance_slicer.py:108-122 | With at least two merges, the naive best distance and its score head the naive ranking. |
| DistanceSlicer.FilterDistanceRanking | paris/distance_slicer.py:125-139 | The result keeps, in ranking order with their scores, exactly the survivors of the greedy filter on `scaling(d)`, with origin `scaling(D[0,2])`. |

## Left out

- networkx is not modelled. The graph is an adjacency map on the integer ids, already relabelled 0..n-1, with one symmetric positive edge weight per pair. `graph.copy` and `convert_node_labels_to_integers` are not modelled.
- The iteration order of `graph_copy.neighbors` is not modelled. The neighbour loops pick any remaining neighbour, and every contract holds for every order.
- Self-loops count in the initial node weights but are not in the adjacency, since the distance skips them and a contraction drops them.
- Floating point is replaced by exact real arithmetic. `float("inf")` is the `Inf` case of a distance and never enters arithmetic. The default `np.log` scoring, `np.sqrt` mean and `np.log` scaling are replaced by function parameters.
- ParisBuilder.ChainLoop: termination of the chain loop is not proved. It rests on the reducibility of the Paris distance, and a fuel parameter bounds the number of chain steps. Running out of fuel is an error result.
- ParisBuilder.ChainStep: popping a node that is no longer in the graph is an error result (the NetworkXError of `neighbors`). That this never happens is not proved.
- ParisBuilder.ChainRound: the contract does not name the node that starts the chain (the first live node, `list(graph_copy.nodes())[0]`) or the component a round appends. ChainStep states both outcomes step by step.
- ParisBuilder.ChainLoop: the rows are tied to the graph by the trace, but the order of the components is not; as a set they are the ids that no row merges.
- ParisBuilder.Paris: a graph with fewer than two nodes is an error result. The source raises an IndexError in both cases (`cc.pop()` on no node, the distance column of an empty array for one node).
- `reorder_dendrogram` is modelled for the rows `paris` builds. Its well-formedness result needs every child to be built no farther than its parent, which `paris` guarantees.
- Every slicer requires a well-formed dendrogram, which is what `paris` returns. The source treats a malformed one in two ways:
  - The materialisers and the scorers that `pop` their cluster trees raise a KeyError on an id that is not yet created or is merged twice. These scorers are in python_paris/cluster_cut_slicer.py (lines 84-85 and 148-149) and paris/heterogeneous_cut_slicer.py (lines 34-35).
  - The scorers that read `cluster_trees[i]` without popping raise a KeyError only on an id not yet created. They read an id merged twice again and return a meaningless score. These are in paris/homogeneous_cut_slicer.py, paris/distance_slicer.py and python_paris/homogeneous_cut_slicer.py.
  - The model reads a missing key as an empty list, and the lemmas show that a well-formed dendrogram never asks for one.
- `np.argsort(-scores)` in `ranking_distances` and `naive_ranking_*` is not stable in numpy. The model uses the stable order, one of the orders numpy may return.
- `ranked_cut_scores = sorted(cut_scores.values(), reverse=True)` is modelled as the scores permuted by the ranking. This is the same list, since a descending sort of a list of reals is unique.
- HomogeneousSlicer.FilterHomogeneousRanking: requires every ranked level in 0..n-1 and at least one row. A level outside that range makes `s_index[s]` raise an IndexError or wrap around from the end, and `D[0, 2]` of an empty array raises one.
- DistanceSlicer.FilterDistanceRanking: requires at least one row, since `D[0, 2]` of an empty array raises an IndexError.
- DistanceSlicer.FilterDistanceRanking and HomogeneousSlicer.FilterHomogeneousRanking: require at least as many scores as ranked entries. The source reads `scores[i]` only for kept entries, so a shorter list raises an IndexError only when a kept entry has no score.
- HomogeneousSlicer.ClusteringFromHomogeneousCut: a cut above n-1 is an error result. The source raises an IndexError after the first n-1 merges, and the partial dictionary is not modelled.
- `ClusterTree.left` and `ClusterTree.right` are written but never read, so they are not modelled.
- The `ValueError` expectations of python_paris/tests/test_heterogeneous_cut_slicer.py and python_paris/tests/test_distance_slicer.py are not modelled. They target variants of the slicers that are not part of this model: the `paris/` files raise nothing.
- python_paris/tests/test_paris.py, the example scripts and setup.py are not part of this model.
