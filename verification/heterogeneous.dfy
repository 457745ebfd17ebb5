/** The heterogeneous slicer of the `paris` package: a cut is a set of nodes, possibly at different
    heights, and the best cut of a subtree is either the subtree's root alone, when its own score beats
    the best of its two halves, or the union of the halves' best cuts. Leaves start at distance 1. */
module HeterogeneousSlicer {
  import opened Collections
  import opened Dendrograms
  import opened ClusterDicts
  import opened Scores

  // ---------------------------------------------------------------------------------------------
  // Materialising a cut

  /** The ids 0..k-1 that belong to the cut, in ascending order. */
  function Selected(cut: set<int>, k: nat): (ids: seq<int>)
    ensures forall x :: x in ids <==> 0 <= x < k && x in cut
    ensures forall i :: 0 <= i < |ids| ==> 0 <= ids[i] < k
    ensures forall i, j :: 0 <= i < j < |ids| ==> ids[i] < ids[j]
  {
    if k == 0 then []
    else Selected(cut, k - 1) + (if k - 1 in cut then [k - 1] else [])
  }

  /** The groups `clustering_from_heterogeneous_cut` emits for the ids 0..k-1: the leaves under
      each id of the cut, in ascending id order. */
  function CutGroups(D: seq<Record>, cut: set<int>, k: nat): seq<seq<int>>
    requires Bounded(D) && k <= Root(D) + 1
  {
    if k == 0 then []
    else CutGroups(D, cut, k - 1) + (if k - 1 in cut then [LeavesUnder(D, k - 1)] else [])
  }

  /** Id k adds its group g, the leaves under it, when it is in the cut. */
  lemma CutGroupsNext(D: seq<Record>, cut: set<int>, k: nat, k': nat, before: seq<seq<int>>, g: seq<int>, after: seq<seq<int>>)
    requires Bounded(D) && k <= Root(D) && k' == k + 1
    requires before == CutGroups(D, cut, k) && g == LeavesUnder(D, k)
    requires after == if k in cut then before + [g] else before
    ensures after == CutGroups(D, cut, k')
  {
  }

  /** The groups emitted once the leaves and the nodes of rows 0..t-1 have been visited. */
  ghost function RowGroups(D: seq<Record>, cut: set<int>, t: nat): seq<seq<int>>
    requires Bounded(D) && t <= |D|
  {
    CutGroups(D, cut, |D| + 1 + t)
  }

  /** Row t adds the entry g of its node u in the dictionary d of the first t + 1 rows when u is in
      the cut, and that entry is the group of u. */
  lemma RowGroupsNext(D: seq<Record>, cut: set<int>, t: nat, t': nat, u: int, d: Dict, before: seq<seq<int>>, g: seq<int>, after: seq<seq<int>>)
    requires WellFormed(D) && t < |D| && t' == t + 1 && u == |D| + 1 + t && d == Replay(D, t')
    requires before == RowGroups(D, cut, t) && g == Get(d, u)
    requires after == if u in cut then before + [g] else before
    ensures after == RowGroups(D, cut, t')
  {
    ReplayNewest(D, t, u, d);
    CutGroupsNext(D, cut, u, |D| + 1 + t', before, g, after);
  }

  /** The groups emitted are those of the selected ids, one per id. */
  lemma {:induction false} CutGroupsOfSelected(D: seq<Record>, cut: set<int>, k: nat)
    requires Bounded(D) && k <= Root(D) + 1
    ensures NodeIds(D, Selected(cut, k)) && CutGroups(D, cut, k) == Groups(D, Selected(cut, k))
  {
    NodeIdsByMembers(D, Selected(cut, k));
    if k > 0 {
      CutGroupsOfSelected(D, cut, k - 1);
    }
  }

  /** `clustering_from_heterogeneous_cut`: one group per node of the cut, the leaves of the cut first
      as singletons, then each merged node of the cut, in creation order, as the leaves under it;
      ids that name no node are skipped. */
  method ClusteringFromHeterogeneousCut(D: seq<Record>, cut: set<int>) returns (clusters: seq<seq<int>>)
    requires WellFormed(D)
    ensures clusters == CutGroups(D, cut, Root(D) + 1)
  {
    var n := |D| + 1;
    clusters := [];
    for t := 0 to n
      invariant clusters == CutGroups(D, cut, t)
    {
      ghost var before := clusters;
      if t in cut {
        clusters := clusters + [[t]];
      }
      CutGroupsNext(D, cut, t, t + 1, before, [t], clusters);
    }
    var cluster := Singletons(n);
    for t := 0 to n - 1
      invariant cluster == Replay(D, t)
      invariant clusters == RowGroups(D, cut, t)
    {
      cluster, clusters := VisitRow(D, cut, t, cluster, clusters);
    }
  }

  /** One pass of the second loop of `clustering_from_heterogeneous_cut`: row t merges its operands
      into node n + t, whose leaves are emitted when that node is in the cut. */
  method VisitRow(D: seq<Record>, cut: set<int>, t: nat, cluster: Dict, clusters: seq<seq<int>>)
    returns (cluster': Dict, clusters': seq<seq<int>>)
    requires WellFormed(D) && t < |D| && cluster == Replay(D, t) && clusters == RowGroups(D, cut, t)
    ensures cluster' == Replay(D, t + 1) && clusters' == RowGroups(D, cut, t + 1)
  {
    var n := |D| + 1;
    cluster' := MergeRow(D, t, n + t, cluster);
    clusters' := clusters;
    if n + t in cut {
      clusters' := clusters' + [Get(cluster', n + t)];
    }
    RowGroupsNext(D, cut, t, t + 1, n + t, cluster', clusters, Get(cluster', n + t), clusters');
  }

  /** Only the nodes of the cut matter: two cuts that agree on the ids 0..k-1 give the same groups. */
  lemma {:induction false} CutGroupsAgree(D: seq<Record>, a: set<int>, b: set<int>, k: nat)
    requires Bounded(D) && k <= Root(D) + 1 && forall x :: 0 <= x < k ==> (x in a <==> x in b)
    ensures CutGroups(D, a, k) == CutGroups(D, b, k)
  {
    if k > 0 {
      CutGroupsAgree(D, a, b, k - 1);
    }
  }

  /** A cut holding no id 0..2n-2, such as {-1}, gives no group. */
  lemma NoNodeNoGroup(D: seq<Record>, cut: set<int>)
    requires Bounded(D) && forall x :: x in cut ==> x < 0 || x > Root(D)
    ensures CutGroups(D, cut, Root(D) + 1) == []
  {
    CutGroupsNone(D, cut, Root(D) + 1);
  }

  lemma {:induction false} CutGroupsNone(D: seq<Record>, cut: set<int>, k: nat)
    requires Bounded(D) && k <= Root(D) + 1 && forall x :: 0 <= x < k ==> x !in cut
    ensures CutGroups(D, cut, k) == []
  {
    if k > 0 {
      CutGroupsNone(D, cut, k - 1);
    }
  }

  // ---------------------------------------------------------------------------------------------
  // The best cut of every subtree

  /** The per-node record of this slicer; the `left`/`right` links the source also stores are never
      read, so they are not modelled. */
  datatype HetTree = HetTree(clusterLabel: int, distance: Dist, size: int, bestScore: real, bestCut: seq<int>)

  /** Node x's record when it is created: a leaf has distance 1, size 1, best score 0 and best cut
      itself; a merged node takes its row's distance and size and sums the best scores and
      concatenates the best cuts of its two operands as their row left them. */
  function Created(D: seq<Record>, scoring: Scoring, excl: set<int>, x: int): HetTree
    requires Bounded(D) && 0 <= x <= Root(D)
    decreases x, 0
  {
    if x < |D| + 1 then HetTree(x, Finite(1.0), 1, 0.0, [x])
    else
      var s := x - |D| - 1;
      var l := Absorb(D, scoring, excl, D[s].left, s);
      var r := Absorb(D, scoring, excl, D[s].right, s);
      HetTree(x, D[s].dist, D[s].size, l.bestScore + r.bestScore, l.bestCut + r.bestCut)
  }

  /** Node x's record once row t absorbs it: its own score (0 unless its distance is positive) replaces
      the inherited best, with x alone as the best cut, when x is not excluded and the score is
      strictly larger. */
  function Absorb(D: seq<Record>, scoring: Scoring, excl: set<int>, x: int, t: nat): HetTree
    requires Bounded(D) && 0 <= x <= Root(D) && t < |D|
    decreases x, 1
  {
    var tree := Created(D, scoring, excl, x);
    var score := if Positive(tree.distance) then scoring(tree.size, D[t].dist, tree.distance) else 0.0;
    if x !in excl && score > tree.bestScore then tree.(bestScore := score, bestCut := [x]) else tree
  }

  /** The value of `best_heterogeneous_cut`: the root's best cut as a set, and its best score. */
  function HetBest(D: seq<Record>, scoring: Scoring, excl: set<int>): (set<int>, real)
    requires Bounded(D)
  {
    var root := Created(D, scoring, excl, Root(D));
    var cut := set y | y in root.bestCut;
    (cut, root.bestScore)
  }

  /** Every best score is non-negative: leaves start at 0, an own score replaces the inherited one only
      when larger, and a merged node adds two non-negative scores. */
  lemma {:induction false} BestScoreNonNegative(D: seq<Record>, scoring: Scoring, excl: set<int>, x: int)
    requires Bounded(D) && 0 <= x <= Root(D)
    ensures Created(D, scoring, excl, x).bestScore >= 0.0
    ensures forall t :: 0 <= t < |D| ==> Absorb(D, scoring, excl, x, t).bestScore >= 0.0
    decreases x
  {
    if x >= |D| + 1 {
      var s := x - |D| - 1;
      BestScoreNonNegative(D, scoring, excl, D[s].left);
      BestScoreNonNegative(D, scoring, excl, D[s].right);
    }
  }

  /** Every node of x's best cut lies in x's id range; x itself is in it only if x is a leaf, and a
      merged node in it is never an excluded one. */
  lemma {:induction false} BestCutIds(D: seq<Record>, scoring: Scoring, excl: set<int>, x: int)
    requires Bounded(D) && 0 <= x <= Root(D)
    ensures forall y :: y in Created(D, scoring, excl, x).bestCut ==>
              0 <= y <= x && (y == x ==> x < |D| + 1) && (y >= |D| + 1 ==> y !in excl)
    ensures forall t, y :: 0 <= t < |D| && y in Absorb(D, scoring, excl, x, t).bestCut ==>
              0 <= y <= x && (y >= |D| + 1 ==> y !in excl)
    decreases x
  {
    if x >= |D| + 1 {
      var s := x - |D| - 1;
      var l, r := D[s].left, D[s].right;
      BestCutIds(D, scoring, excl, l);
      BestCutIds(D, scoring, excl, r);
      var lc, rc := Absorb(D, scoring, excl, l, s).bestCut, Absorb(D, scoring, excl, r, s).bestCut;
      assert Created(D, scoring, excl, x).bestCut == lc + rc;
      assert l < x && r < x;
    }
    forall t | 0 <= t < |D| {
      AbsorbCutIds(D, scoring, excl, x, t);
    }
  }

  /** Absorbing x keeps its best cut or replaces it by x itself, which is then not excluded. */
  lemma AbsorbCutIds(D: seq<Record>, scoring: Scoring, excl: set<int>, x: int, t: nat)
    requires Bounded(D) && 0 <= x <= Root(D) && t < |D|
    requires forall y :: y in Created(D, scoring, excl, x).bestCut ==> 0 <= y <= x && (y >= |D| + 1 ==> y !in excl)
    ensures forall y :: y in Absorb(D, scoring, excl, x, t).bestCut ==> 0 <= y <= x && (y >= |D| + 1 ==> y !in excl)
  {
  }

  /** The leaves under the nodes of x's best cut, in cut order, are exactly the leaves under x: the cut
      is an antichain of x's subtree that covers each of its leaves once. */
  lemma {:induction false} BestCutCoversLeaves(D: seq<Record>, scoring: Scoring, excl: set<int>, x: int)
    requires Bounded(D) && 0 <= x <= Root(D)
    ensures NodeIds(D, Created(D, scoring, excl, x).bestCut)
    ensures Flatten(Groups(D, Created(D, scoring, excl, x).bestCut)) == LeavesUnder(D, x)
    decreases x, 1
  {
    BestCutIds(D, scoring, excl, x);
    var c := Created(D, scoring, excl, x).bestCut;
    NodeIdsByMembers(D, c);
    if x < |D| + 1 {
      assert Flatten(Groups(D, c)) == LeavesUnder(D, x) + Flatten(Groups(D, c)[1..]);
    } else {
      MergedCutCoversLeaves(D, scoring, excl, x);
    }
  }

  /** The case of BestCutCoversLeaves where x is created by a row: its cut joins those of its operands. */
  lemma {:induction false} MergedCutCoversLeaves(D: seq<Record>, scoring: Scoring, excl: set<int>, x: int)
    requires Bounded(D) && |D| + 1 <= x <= Root(D)
    requires NodeIds(D, Created(D, scoring, excl, x).bestCut)
    ensures Flatten(Groups(D, Created(D, scoring, excl, x).bestCut)) == LeavesUnder(D, x)
    decreases x, 0
  {
    var c := Created(D, scoring, excl, x).bestCut;
    var s := x - |D| - 1;
    var l, r := D[s].left, D[s].right;
    var lc, rc := Absorb(D, scoring, excl, l, s).bestCut, Absorb(D, scoring, excl, r, s).bestCut;
    assert c == lc + rc;
    AbsorbCoversLeaves(D, scoring, excl, l, s);
    AbsorbCoversLeaves(D, scoring, excl, r, s);
    GroupsConcat(D, lc, rc);
    FlattenConcat(Groups(D, lc), Groups(D, rc));
    assert LeavesUnder(D, x) == LeavesUnder(D, l) + LeavesUnder(D, r);
  }

  lemma AbsorbCoversLeaves(D: seq<Record>, scoring: Scoring, excl: set<int>, x: int, t: nat)
    requires Bounded(D) && 0 <= x <= Root(D) && t < |D|
    ensures NodeIds(D, Absorb(D, scoring, excl, x, t).bestCut)
    ensures Flatten(Groups(D, Absorb(D, scoring, excl, x, t).bestCut)) == LeavesUnder(D, x)
    decreases x, 2
  {
    var c := Absorb(D, scoring, excl, x, t).bestCut;
    if c == [x] {
      NodeIdsByMembers(D, c);
      assert Flatten(Groups(D, c)) == LeavesUnder(D, x) + Flatten(Groups(D, c)[1..]);
    } else {
      BestCutCoversLeaves(D, scoring, excl, x);
    }
  }

  /** A list of nodes whose leaves, concatenated, hold each leaf once names no node twice. */
  lemma CoveringNodesDistinct(D: seq<Record>, c: seq<int>)
    requires NodeIds(D, c) && multiset(Flatten(Groups(D, c))) == multiset(Range(0, |D| + 1))
    ensures Distinct(c)
  {
    var g := Groups(D, c);
    forall i, j | 0 <= i < j < |c| ensures c[i] != c[j] {
      FlattenHoldsTwo(g, i, j);
      LeavesUnderAreLeaves(D, c[i]);
      var z := g[i][0];
      assert multiset(g[i])[z] >= 1;
      DistinctCount(Range(0, |D| + 1), z);
    }
  }

  /** The leaves under a list of distinct nodes depend, as a multiset, only on which nodes are listed. */
  lemma {:induction false} GroupsSameNodes(D: seq<Record>, xs: seq<int>, ys: seq<int>)
    requires NodeIds(D, xs) && NodeIds(D, ys) && Distinct(xs) && Distinct(ys)
    requires forall y :: y in xs <==> y in ys
    ensures multiset(Flatten(Groups(D, xs))) == multiset(Flatten(Groups(D, ys)))
    decreases |xs|
  {
    if xs != [] || ys != [] {
      var x := if xs != [] then xs[0] else ys[0];
      assert x in xs && x in ys;
      FlattenGroupsRemove(D, xs, x);
      FlattenGroupsRemove(D, ys, x);
      RemoveIdDistinct(xs, x);
      RemoveIdDistinct(ys, x);
      GroupsSameNodes(D, RemoveId(xs, x), RemoveId(ys, x));
    }
  }

  /** Materialising the best cut of the whole dendrogram gives a partition of the leaves 0..n-1. */
  lemma BestCutIsPartition(D: seq<Record>, scoring: Scoring, excl: set<int>)
    requires WellFormed(D)
    ensures IsPartition(CutGroups(D, HetBest(D, scoring, excl).0, Root(D) + 1), |D| + 1)
  {
    CutGroupsOfSelected(D, HetBest(D, scoring, excl).0, Root(D) + 1);
    var c := Created(D, scoring, excl, Root(D)).bestCut;
    var ids := Selected(HetBest(D, scoring, excl).0, Root(D) + 1);
    BestCutIds(D, scoring, excl, Root(D));
    BestCutCoversLeaves(D, scoring, excl, Root(D));
    ReplayAll(D);
    CoveringNodesDistinct(D, c);
    NodeIdsByMembers(D, ids);
    forall i, j | 0 <= i < j < |ids| ensures ids[i] != ids[j] {
    }
    GroupsSameNodes(D, ids, c);
    forall i | 0 <= i < |ids| ensures Groups(D, ids)[i] != [] {
      LeavesUnderAreLeaves(D, ids[i]);
    }
  }

  // ---------------------------------------------------------------------------------------------
  // The scan

  /** The map `cluster_trees` after rows 0..t-1: one record per cluster of that partition, as created. */
  ghost predicate HetLive(D: seq<Record>, scoring: Scoring, excl: set<int>, t: nat, trees: map<int, HetTree>)
    requires t <= |D|
  {
    && Bounded(D)
    && (forall x :: x in trees <==> Alive(D, t, x))
    && (forall x :: x in trees ==> 0 <= x <= Root(D) && trees[x] == Created(D, scoring, excl, x))
  }

  lemma HetLiveStep(D: seq<Record>, scoring: Scoring, excl: set<int>, t: nat, trees: map<int, HetTree>)
    requires WellFormed(D) && t < |D| && HetLive(D, scoring, excl, t, trees)
    ensures D[t].left in trees && D[t].right in trees && D[t].left != D[t].right
    ensures HetLive(D, scoring, excl, t + 1, (trees - {D[t].left} - {D[t].right})[|D| + 1 + t := Created(D, scoring, excl, |D| + 1 + t)])
  {
    OperandsAlive(D, t);
    NewNodeAlive(D, t);
    var after := (trees - {D[t].left} - {D[t].right})[|D| + 1 + t := Created(D, scoring, excl, |D| + 1 + t)];
    forall x ensures x in after <==> Alive(D, t + 1, x) {
      ConsumedIff(D, t + 1, x);
      ConsumedIff(D, t, x);
    }
  }

  /** One row of `best_heterogeneous_cut`: pops both operands, lets each take itself as its best cut
      when it is not excluded and its own score beats its inherited best, and stores the new node
      with the sum of their best scores and the concatenation of their best cuts. */
  method HetAbsorbRow(D: seq<Record>, scoring: Scoring, toExclude: set<int>, t: nat, clusterTrees: map<int, HetTree>)
    returns (after: map<int, HetTree>)
    requires WellFormed(D) && t < |D| && HetLive(D, scoring, toExclude, t, clusterTrees)
    ensures HetLive(D, scoring, toExclude, t + 1, after)
  {
    var n := |D| + 1;
    var i, j := D[t].left, D[t].right;
    HetLiveStep(D, scoring, toExclude, t, clusterTrees);
    after := clusterTrees;
    var leftTree := after[i];
    after := after - {i};
    var rightTree := after[j];
    after := after - {j};
    var newDistance, newSize := D[t].dist, D[t].size;

    var leftTreeScore := if Positive(leftTree.distance) then scoring(leftTree.size, newDistance, leftTree.distance) else 0.0;
    if leftTree.clusterLabel !in toExclude && leftTreeScore > leftTree.bestScore {
      leftTree := leftTree.(bestScore := leftTreeScore, bestCut := [leftTree.clusterLabel]);
    }
    var rightTreeScore := if Positive(rightTree.distance) then scoring(rightTree.size, newDistance, rightTree.distance) else 0.0;
    if rightTree.clusterLabel !in toExclude && rightTreeScore > rightTree.bestScore {
      rightTree := rightTree.(bestScore := rightTreeScore, bestCut := [rightTree.clusterLabel]);
    }
    assert leftTree == Absorb(D, scoring, toExclude, i, t);
    assert rightTree == Absorb(D, scoring, toExclude, j, t);
    after := after[n + t := HetTree(n + t, newDistance, newSize, leftTree.bestScore + rightTree.bestScore, leftTree.bestCut + rightTree.bestCut)];
  }

  /** `best_heterogeneous_cut`: the root's best cut and best score. The score is non-negative, the
      root is in the cut only when there is a single leaf, and no excluded merged node is in it. */
  method BestHeterogeneousCut(D: seq<Record>, scoring: Scoring, toExclude: set<int>) returns (bestCut: set<int>, bestScore: real)
    requires WellFormed(D)
    ensures (bestCut, bestScore) == HetBest(D, scoring, toExclude)
    ensures bestScore >= 0.0
    ensures forall y :: y in bestCut ==> 0 <= y <= Root(D) && (y >= |D| + 1 ==> y !in toExclude)
    ensures |D| >= 1 ==> Root(D) !in bestCut
  {
    var n := |D| + 1;
    var clusterTrees := map x | 0 <= x < n :: Created(D, scoring, toExclude, x);
    assert HetLive(D, scoring, toExclude, 0, clusterTrees);
    for t := 0 to n - 1
      invariant HetLive(D, scoring, toExclude, t, clusterTrees)
    {
      clusterTrees := HetAbsorbRow(D, scoring, toExclude, t, clusterTrees);
    }
    RootNeverConsumed(D, |D|);
    var rootTree := clusterTrees[2 * n - 2];
    bestCut := set y | y in rootTree.bestCut;
    bestScore := rootTree.bestScore;
    BestScoreNonNegative(D, scoring, toExclude, Root(D));
    BestCutIds(D, scoring, toExclude, Root(D));
  }

  // ---------------------------------------------------------------------------------------------
  // Ranking

  /** The ids excluded before round i of the ranking: the union of the cuts of rounds 0..i-1. */
  function ExcludedBefore(D: seq<Record>, scoring: Scoring, i: nat): set<int>
    requires Bounded(D)
  {
    if i == 0 then {}
    else ExcludedBefore(D, scoring, i - 1) + HetBest(D, scoring, ExcludedBefore(D, scoring, i - 1)).0
  }

  lemma {:induction false} ExcludedGrows(D: seq<Record>, scoring: Scoring, i: nat, j: nat)
    requires Bounded(D) && i < j
    ensures HetBest(D, scoring, ExcludedBefore(D, scoring, i)).0 <= ExcludedBefore(D, scoring, j)
  {
    if i < j - 1 {
      ExcludedGrows(D, scoring, i, j - 1);
    }
  }

  /** Two rounds of the ranking never share a merged node: a merged node in an earlier cut is excluded
      from every later round. Leaves may recur. */
  lemma RoundsShareOnlyLeaves(D: seq<Record>, scoring: Scoring, i: nat, j: nat, y: int)
    requires Bounded(D) && i < j
    requires y in HetBest(D, scoring, ExcludedBefore(D, scoring, i)).0
    requires y in HetBest(D, scoring, ExcludedBefore(D, scoring, j)).0
    ensures 0 <= y < |D| + 1
  {
    ExcludedGrows(D, scoring, i, j);
    BestCutIds(D, scoring, ExcludedBefore(D, scoring, i), Root(D));
    BestCutIds(D, scoring, ExcludedBefore(D, scoring, j), Root(D));
  }

  /** The cuts and the scores of rounds 0..i-1 of the ranking. */
  function Rounds(D: seq<Record>, scoring: Scoring, i: nat): (r: (seq<set<int>>, seq<real>))
    requires Bounded(D)
    ensures |r.0| == |r.1| == i
  {
    if i == 0 then ([], [])
    else
      var prev := Rounds(D, scoring, i - 1);
      var best := HetBest(D, scoring, ExcludedBefore(D, scoring, i - 1));
      (prev.0 + [best.0], prev.1 + [best.1])
  }

  /** Round m of the ranking is the best cut, and its score, with the cuts of rounds 0..m-1
      excluded; every such score is non-negative. */
  lemma {:induction false} RoundsAreBestCuts(D: seq<Record>, scoring: Scoring, i: nat)
    requires Bounded(D)
    ensures forall m :: 0 <= m < i ==>
              (Rounds(D, scoring, i).0[m], Rounds(D, scoring, i).1[m]) == HetBest(D, scoring, ExcludedBefore(D, scoring, m))
    ensures forall m :: 0 <= m < i ==> Rounds(D, scoring, i).1[m] >= 0.0
  {
    if i > 0 {
      RoundsAreBestCuts(D, scoring, i - 1);
      BestScoreNonNegative(D, scoring, ExcludedBefore(D, scoring, i - 1), Root(D));
    }
  }

  /** `ranking_heterogeneous_cuts`: k rounds (none when k <= 0), each taking the best cut with every
      node of the earlier cuts excluded, with its score. */
  method RankingHeterogeneousCuts(D: seq<Record>, k: int, scoring: Scoring) returns (rankedCuts: seq<set<int>>, rankedCutScores: seq<real>)
    requires WellFormed(D)
    ensures |rankedCuts| == |rankedCutScores| == if k < 0 then 0 else k
    ensures forall i :: 0 <= i < |rankedCuts| ==>
              (rankedCuts[i], rankedCutScores[i]) == HetBest(D, scoring, ExcludedBefore(D, scoring, i))
    ensures forall i :: 0 <= i < |rankedCuts| ==> rankedCutScores[i] >= 0.0
    ensures forall i, j, y :: 0 <= i < j < |rankedCuts| && y in rankedCuts[i] && y in rankedCuts[j] ==> 0 <= y < |D| + 1
  {
    rankedCuts, rankedCutScores := [], [];
    var toExclude: set<int> := {};
    var rounds := if k < 0 then 0 else k;  // `range(k)` is empty for a negative k
    for i := 0 to rounds
      invariant toExclude == ExcludedBefore(D, scoring, i)
      invariant (rankedCuts, rankedCutScores) == Rounds(D, scoring, i)
    {
      var bestCut, bestCutScore := BestHeterogeneousCut(D, scoring, toExclude);
      rankedCuts := rankedCuts + [bestCut];
      rankedCutScores := rankedCutScores + [bestCutScore];
      toExclude := toExclude + bestCut;
    }
    RoundsAreBestCuts(D, scoring, rounds);
    forall i, j, y | 0 <= i < j < |rankedCuts| && y in rankedCuts[i] && y in rankedCuts[j] ensures 0 <= y < |D| + 1 {
      RoundsShareOnlyLeaves(D, scoring, i, j, y);
    }
  }
}
