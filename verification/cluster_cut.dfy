/** The cluster-cut slicer of the `python_paris` package: a cut is a single node of the dendrogram,
    0..n-1 a leaf and n+t the node row t creates, and it stands for the cluster of leaves under it.
    A node is scored when the row absorbing it runs, from its size, its own distance (0 for a leaf, so
    leaves never score) and the distance of that row. */
module ClusterCutSlicer {
  import opened Collections
  import opened Dendrograms
  import opened ClusterDicts
  import opened Scores
  import opened Selection
  import opened Sorting

  /** `clustering_from_cluster_cut`: the leaves under node `cut`, or a ValueError for an id outside
      0..2n-2. */
  method ClusteringFromClusterCut(D: seq<Record>, cut: int) returns (r: Result<seq<int>>)
    requires WellFormed(D)
    ensures r.Failure? <==> cut < 0 || cut > Root(D)
    ensures r.Success? ==> r.value == LeavesUnder(D, cut)
  {
    var n := |D| + 1;
    if cut < 0 || cut > 2 * n - 2 {
      return Failure("ValueError");
    }
    if cut < n {
      return Success([cut]);
    }
    var cluster := Singletons(n);
    for t := 0 to n - 1
      invariant cluster == Replay(D, t) && n + t <= cut
    {
      cluster := MergeRow(D, t, n + t, cluster);
      if cut == n + t {
        ReplayNewest(D, t, n + t, cluster);
        return Success(Get(cluster, n + t));
      }
    }
    assert false;
  }

  /** The cluster returned for an accepted cut is non-empty and holds leaves no larger than the cut,
      and the cluster of the root holds every leaf exactly once. */
  lemma ClusterOfCut(D: seq<Record>, cut: int)
    requires WellFormed(D) && 0 <= cut <= Root(D)
    ensures |LeavesUnder(D, cut)| > 0 && forall y :: y in LeavesUnder(D, cut) ==> 0 <= y <= |D| && y <= cut
    ensures cut == Root(D) ==> multiset(LeavesUnder(D, cut)) == multiset(Range(0, |D| + 1))
  {
    LeavesUnderAreLeaves(D, cut);
    if cut == Root(D) {
      ReplayAll(D);
    }
  }

  /** The record of a node that has not been absorbed yet: its own distance (0 for a leaf), its size,
      and the score 0 it was created with. */
  datatype CutTree = CutTree(clusterLabel: int, distance: Dist, size: int, score: real)

  function FreshTree(D: seq<Record>, x: int): CutTree
    requires 0 <= x <= Root(D)
  {
    CutTree(x, OwnDist(D, Finite(0.0), x), OwnSize(D, x), 0.0)
  }

  /** The map `cluster_trees` after rows 0..t-1: exactly the clusters of that partition. */
  ghost predicate LiveTrees(D: seq<Record>, t: nat, trees: map<int, CutTree>)
    requires t <= |D|
  {
    && (forall x :: x in trees <==> Alive(D, t, x))
    && (forall x :: x in trees ==> 0 <= x <= Root(D) && trees[x] == FreshTree(D, x))
  }

  /** The score each absorbed node receives, in absorption order: left then right of row 0, and so on. */
  function AbsorbedScores(D: seq<Record>, scoring: Scoring, k: nat): (s: seq<real>)
    requires Bounded(D) && k <= |D|
    ensures |s| == 2 * k
  {
    if k == 0 then []
    else AbsorbedScores(D, scoring, k - 1)
         + [ScoreAt(D, scoring, Finite(0.0), D[k - 1].left, k - 1), ScoreAt(D, scoring, Finite(0.0), D[k - 1].right, k - 1)]
  }

  /** The entries row i contributes to the absorption order and to its scores. */
  lemma {:induction false} AbsorbedScoresAt(D: seq<Record>, scoring: Scoring, k: nat, i: nat)
    requires Bounded(D) && i < k <= |D|
    ensures AbsorbedScores(D, scoring, k)[2 * i] == ScoreAt(D, scoring, Finite(0.0), D[i].left, i)
    ensures AbsorbedScores(D, scoring, k)[2 * i + 1] == ScoreAt(D, scoring, Finite(0.0), D[i].right, i)
  {
    if i < k - 1 {
      AbsorbedScoresAt(D, scoring, k - 1, i);
    }
  }

  /** The node at position i of the absorption order of rows 0..k-1, and -1 for the scan's start. */
  function CutAt(D: seq<Record>, k: nat, i: int): int
    requires Bounded(D) && k <= |D|
  {
    if 0 <= i < 2 * k then Absorbed(D, k)[i] else -1
  }

  /** One row of the cut loops: pop both operands and store the new node. */
  lemma LiveTreesStep(D: seq<Record>, t: nat, trees: map<int, CutTree>)
    requires WellFormed(D) && t < |D| && LiveTrees(D, t, trees)
    ensures D[t].left in trees && D[t].right in trees && D[t].left != D[t].right
    ensures FreshTree(D, |D| + 1 + t) == CutTree(|D| + 1 + t, D[t].dist, D[t].size, 0.0)
    ensures LiveTrees(D, t + 1, (trees - {D[t].left} - {D[t].right})[|D| + 1 + t := FreshTree(D, |D| + 1 + t)])
  {
    OperandsAlive(D, t);
    NewNodeAlive(D, t);
    var after := (trees - {D[t].left} - {D[t].right})[|D| + 1 + t := FreshTree(D, |D| + 1 + t)];
    forall x ensures x in after <==> Alive(D, t + 1, x) {
      ConsumedIff(D, t + 1, x);
      ConsumedIff(D, t, x);
    }
  }

  /** The score row t gives an operand, computed from its record as the loop does. */
  lemma TreeScore(D: seq<Record>, scoring: Scoring, t: nat, tree: CutTree, x: int)
    requires Bounded(D) && t < |D| && 0 <= x <= Root(D) && tree == FreshTree(D, x)
    ensures (if Positive(tree.distance) then scoring(tree.size, D[t].dist, tree.distance) else 0.0)
            == ScoreAt(D, scoring, Finite(0.0), x, t)
  {
  }

  /** One row of the cut loops: pops the records of both operands, scores each from its own distance
      and size and the row's distance (0 when its own distance is not positive), and stores the new
      node's record with score 0. */
  method AbsorbRow(D: seq<Record>, scoring: Scoring, t: nat, clusterTrees: map<int, CutTree>)
    returns (leftTree: CutTree, rightTree: CutTree, after: map<int, CutTree>)
    requires WellFormed(D) && t < |D| && LiveTrees(D, t, clusterTrees)
    ensures leftTree.clusterLabel == D[t].left && leftTree.score == ScoreAt(D, scoring, Finite(0.0), D[t].left, t)
    ensures rightTree.clusterLabel == D[t].right && rightTree.score == ScoreAt(D, scoring, Finite(0.0), D[t].right, t)
    ensures LiveTrees(D, t + 1, after)
  {
    var n := |D| + 1;
    var i, j := D[t].left, D[t].right;
    LiveTreesStep(D, t, clusterTrees);
    after := clusterTrees;
    leftTree := after[i];
    after := after - {i};
    rightTree := after[j];
    after := after - {j};
    var newDistance, newSize := D[t].dist, D[t].size;
    TreeScore(D, scoring, t, leftTree, i);
    if Positive(leftTree.distance) {
      leftTree := leftTree.(score := scoring(leftTree.size, newDistance, leftTree.distance));
    } else {
      leftTree := leftTree.(score := 0.0);
    }
    TreeScore(D, scoring, t, rightTree, j);
    if Positive(rightTree.distance) {
      rightTree := rightTree.(score := scoring(rightTree.size, newDistance, rightTree.distance));
    } else {
      rightTree := rightTree.(score := 0.0);
    }
    after := after[n + t := CutTree(n + t, newDistance, newSize, 0.0)];
  }

  /** `best_cluster_cut`: the first node, in absorption order, whose score is the largest, when that
      score is positive, and `(-1, 0.)` otherwise. */
  method BestClusterCut(D: seq<Record>, scoring: Scoring) returns (bestCut: int, bestCutScore: real)
    requires WellFormed(D)
    ensures exists i :: FirstStrictMax(AbsorbedScores(D, scoring, |D|), -1, i, bestCutScore) && bestCut == CutAt(D, |D|, i)
  {
    var n := |D| + 1;
    bestCut, bestCutScore := -1, 0.0;
    var clusterTrees := map x | 0 <= x < n :: FreshTree(D, x);
    assert LiveTrees(D, 0, clusterTrees);
    for t := 0 to n - 1
      invariant LiveTrees(D, t, clusterTrees)
      invariant bestCut == Scan(D, scoring, t).node && bestCutScore == Scan(D, scoring, t).score
    {
      clusterTrees, bestCut, bestCutScore := ScanRow(D, scoring, t, clusterTrees, bestCut, bestCutScore);
    }
    ScanIsFirstStrictMax(D, scoring, |D|);
  }

  /** One round of the loop of `best_cluster_cut`: both operands of row t are absorbed and each
      replaces the best so far when its score is strictly larger. */
  method ScanRow(D: seq<Record>, scoring: Scoring, t: nat, clusterTrees: map<int, CutTree>, bestCut: int, bestCutScore: real)
    returns (clusterTrees': map<int, CutTree>, bestCut': int, bestCutScore': real)
    requires WellFormed(D) && t < |D| && LiveTrees(D, t, clusterTrees)
    requires bestCut == Scan(D, scoring, t).node && bestCutScore == Scan(D, scoring, t).score
    ensures LiveTrees(D, t + 1, clusterTrees')
    ensures bestCut' == Scan(D, scoring, t + 1).node && bestCutScore' == Scan(D, scoring, t + 1).score
  {
    var leftTree, rightTree;
    leftTree, rightTree, clusterTrees' := AbsorbRow(D, scoring, t, clusterTrees);
    ScanNext(D, scoring, t, t + 1);
    bestCut', bestCutScore' := bestCut, bestCutScore;
    if leftTree.score > bestCutScore' {
      bestCutScore' := leftTree.score;
      bestCut' := leftTree.clusterLabel;
    }
    if rightTree.score > bestCutScore' {
      bestCutScore' := rightTree.score;
      bestCut' := rightTree.clusterLabel;
    }
  }

  /** The best so far of the scan: its position in the absorption order, its node and its score. */
  datatype Best = Best(pos: int, node: int, score: real)

  /** The best so far after absorbing x, with the given score, at position p. */
  function KeepBest(b: Best, p: int, x: int, score: real): Best {
    if score > b.score then Best(p, x, score) else b
  }

  /** The scan of `best_cluster_cut` after rows 0..k-1, operand by operand. */
  ghost function Scan(D: seq<Record>, scoring: Scoring, k: nat): Best
    requires Bounded(D) && k <= |D|
  {
    if k == 0 then Best(-1, -1, 0.0)
    else
      var t := k - 1;
      var afterLeft := KeepBest(Scan(D, scoring, t), 2 * t, D[t].left, ScoreAt(D, scoring, Finite(0.0), D[t].left, t));
      KeepBest(afterLeft, 2 * t + 1, D[t].right, ScoreAt(D, scoring, Finite(0.0), D[t].right, t))
  }

  /** Row t of the scan: its left operand, then its right one. */
  lemma ScanNext(D: seq<Record>, scoring: Scoring, t: nat, t': nat)
    requires Bounded(D) && t < |D| && t' == t + 1
    ensures Scan(D, scoring, t')
         == KeepBest(KeepBest(Scan(D, scoring, t), 2 * t, D[t].left, ScoreAt(D, scoring, Finite(0.0), D[t].left, t)),
                     2 * t + 1, D[t].right, ScoreAt(D, scoring, Finite(0.0), D[t].right, t))
  {
  }

  /** The scan finds the first strict maximum of the absorbed scores, and the node absorbed there. */
  lemma {:induction false} ScanIsFirstStrictMax(D: seq<Record>, scoring: Scoring, k: nat)
    requires Bounded(D) && k <= |D|
    ensures FirstStrictMax(AbsorbedScores(D, scoring, k), -1, Scan(D, scoring, k).pos, Scan(D, scoring, k).score)
    ensures Scan(D, scoring, k).node == CutAt(D, k, Scan(D, scoring, k).pos)
  {
    if k > 0 {
      var t := k - 1;
      ScanIsFirstStrictMax(D, scoring, t);
      var x := ScoreAt(D, scoring, Finite(0.0), D[t].left, t);
      var y := ScoreAt(D, scoring, Finite(0.0), D[t].right, t);
      ScanNext(D, scoring, t, k);
      AbsorbedNext(D, scoring, t, k, Scan(D, scoring, t).pos);
      KeepBestPair(AbsorbedScores(D, scoring, t), Scan(D, scoring, t), 2 * t, D[t].left, x, D[t].right, y);
    }
  }

  /** Two more steps of the scan keep the first strict maximum, and the node kept is the one found at its
      position. */
  lemma KeepBestPair(seen: seq<real>, b: Best, p: int, l: int, x: real, r: int, y: real)
    requires FirstStrictMax(seen, -1, b.pos, b.score) && p == |seen|
    ensures var b2 := KeepBest(KeepBest(b, p, l, x), p + 1, r, y);
            && FirstStrictMax(seen + [x] + [y], -1, b2.pos, b2.score)
            && (if b2.pos == p then b2.node == l else if b2.pos == p + 1 then b2.node == r else b2 == b && b.pos < p)
  {
    var b1 := KeepBest(b, p, l, x);
    FirstStrictMaxExtend(seen, -1, b.pos, b.score, x);
    FirstStrictMaxExtend(seen + [x], -1, b1.pos, b1.score, y);
  }

  /** Row t appends its two operands to the absorption order, with their scores. */
  lemma AbsorbedNext(D: seq<Record>, scoring: Scoring, t: nat, t': nat, p: int)
    requires Bounded(D) && t < |D| && t' == t + 1
    ensures AbsorbedScores(D, scoring, t')
         == AbsorbedScores(D, scoring, t) + [ScoreAt(D, scoring, Finite(0.0), D[t].left, t)]
            + [ScoreAt(D, scoring, Finite(0.0), D[t].right, t)]
    ensures p < 2 * t ==> CutAt(D, t', p) == CutAt(D, t, p)
    ensures CutAt(D, t', 2 * t) == D[t].left && CutAt(D, t', 2 * t + 1) == D[t].right
  {
    assert Absorbed(D, t') == Absorbed(D, t) + [D[t].left, D[t].right];
  }

  /** Each absorbed node's score is the one it keeps to the end. */
  lemma AbsorbedScoresAreFinal(D: seq<Record>, scoring: Scoring)
    requires WellFormed(D)
    ensures forall k :: 0 <= k < 2 * |D| ==> (0 <= Absorbed(D, |D|)[k] <= Root(D)
              && AbsorbedScores(D, scoring, |D|)[k] == FinalScore(D, scoring, Finite(0.0), Absorbed(D, |D|)[k]))
  {
    forall k | 0 <= k < 2 * |D|
      ensures 0 <= Absorbed(D, |D|)[k] <= Root(D)
      ensures AbsorbedScores(D, scoring, |D|)[k] == FinalScore(D, scoring, Finite(0.0), Absorbed(D, |D|)[k])
    {
      var t := k / 2;
      assert k == 2 * t || k == 2 * t + 1;
      AbsorbedScoresAt(D, scoring, |D|, t);
      AbsorbedScoreStays(D, scoring, Finite(0.0), t, |D|, Absorbed(D, |D|)[k]);
    }
  }

  /** A positive best cut is a merged node, never a single leaf, and never the root. */
  lemma BestIsMergedNode(D: seq<Record>, scoring: Scoring, i: int, v: real)
    requires WellFormed(D) && FirstStrictMax(AbsorbedScores(D, scoring, |D|), -1, i, v) && v > 0.0
    ensures |D| + 1 <= CutAt(D, |D|, i) < Root(D)
  {
    AbsorbedScoresAreFinal(D, scoring);
    EveryNonRootIdAbsorbedOnce(D);
    var x := Absorbed(D, |D|)[i];
    assert x in Absorbed(D, |D|);
    if x < |D| + 1 {
      LeafScoreZero(D, scoring, |D|, x);
    }
  }

  /** `ranking_cluster_cuts`: every node but the root, by non-increasing score, equal scores in
      absorption order, with its score. `cut_scores` is kept as the list of its values, in the
      insertion order of its keys, which are the distinct ids of `cuts`. */
  method RankingClusterCuts(D: seq<Record>, scoring: Scoring) returns (rankedCuts: seq<int>, rankedCutScores: seq<real>)
    requires WellFormed(D)
    ensures rankedCuts == Permute(Absorbed(D, |D|), RankDescending(AbsorbedScores(D, scoring, |D|)))
    ensures |rankedCuts| == |rankedCutScores| == Root(D)
    ensures Distinct(rankedCuts) && forall x :: x in rankedCuts <==> 0 <= x < Root(D)
    ensures forall i :: 0 <= i < Root(D) ==> (0 <= rankedCuts[i] < Root(D)
              && rankedCutScores[i] == FinalScore(D, scoring, Finite(0.0), rankedCuts[i]))
    ensures forall i, j :: 0 <= i < j < Root(D) ==> rankedCutScores[i] >= rankedCutScores[j]
  {
    var n := |D| + 1;
    var cuts: seq<int> := [];
    var cutScores: seq<real> := [];
    var clusterTrees := map x | 0 <= x < n :: FreshTree(D, x);
    assert LiveTrees(D, 0, clusterTrees);
    for t := 0 to n - 1
      invariant LiveTrees(D, t, clusterTrees)
      invariant cuts == Absorbed(D, t) && cutScores == AbsorbedScores(D, scoring, t)
    {
      var leftTree, rightTree;
      leftTree, rightTree, clusterTrees := AbsorbRow(D, scoring, t, clusterTrees);
      cuts := cuts + [leftTree.clusterLabel, rightTree.clusterLabel];
      cutScores := cutScores + [leftTree.score, rightTree.score];
    }
    var order := RankDescending(cutScores);
    rankedCuts := Permute(cuts, order);
    rankedCutScores := Permute(cutScores, order);
    RankedCutsAreNodes(D, scoring);
    RankedCutScores(D, scoring);
  }

  /** The ranked nodes are every node but the root, each once. */
  lemma RankedCutsAreNodes(D: seq<Record>, scoring: Scoring)
    requires WellFormed(D)
    ensures var c := Permute(Absorbed(D, |D|), RankDescending(AbsorbedScores(D, scoring, |D|)));
            Distinct(c) && forall x :: x in c <==> 0 <= x < Root(D)
  {
    var s := AbsorbedScores(D, scoring, |D|);
    RankDescendingOrder(s);
    EveryNonRootIdAbsorbedOnce(D);
    PermuteDistinct(Absorbed(D, |D|), RankDescending(s));
  }

  /** Each ranked node is paired with its final score, and the scores do not increase. */
  lemma RankedCutScores(D: seq<Record>, scoring: Scoring)
    requires WellFormed(D)
    ensures var s := AbsorbedScores(D, scoring, |D|);
            var o := RankDescending(s);
            var c := Permute(Absorbed(D, |D|), o);
            && (forall i :: 0 <= i < |c| ==> 0 <= c[i] < Root(D) && Permute(s, o)[i] == FinalScore(D, scoring, Finite(0.0), c[i]))
            && (forall i, j :: 0 <= i < j < |c| ==> Permute(s, o)[i] >= Permute(s, o)[j])
  {
    var s := AbsorbedScores(D, scoring, |D|);
    RankDescendingOrder(s);
    AbsorbedScoresAreFinal(D, scoring);
    EveryNonRootIdAbsorbedOnce(D);
    var c := Permute(Absorbed(D, |D|), RankDescending(s));
    forall i | 0 <= i < |c| ensures c[i] != Root(D) {
      assert c[i] in Absorbed(D, |D|);
    }
  }

  /** A positive best cut heads the ranking. */
  lemma BestHeadsRanking(D: seq<Record>, scoring: Scoring, i: int, v: real)
    requires WellFormed(D) && FirstStrictMax(AbsorbedScores(D, scoring, |D|), -1, i, v) && v > 0.0
    ensures Permute(Absorbed(D, |D|), RankDescending(AbsorbedScores(D, scoring, |D|)))[0] == CutAt(D, |D|, i)
  {
    RankHeadIsFirstMax(AbsorbedScores(D, scoring, |D|), -1, i, v);
  }
}
