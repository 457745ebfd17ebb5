/** The homogeneous slicer of the `python_paris` package: a cut level t is the partition reached after
    the first t merges. Its materialiser rejects levels outside 0..n-1, and its scorers start leaves at
    distance 0, so leaves never score. */
module CheckedHomogeneousSlicer {
  import opened Collections
  import opened Dendrograms
  import opened ClusterDicts
  import opened Scores
  import opened Selection
  import opened Sorting

  /** `clustering_from_homogeneous_cut`: the clusters after `cut` merges, in dictionary order, or a
      ValueError for a level outside 0..n-1. */
  method ClusteringFromHomogeneousCut(D: seq<Record>, cut: int) returns (r: Result<seq<seq<int>>>)
    requires WellFormed(D)
    ensures r.Failure? <==> cut < 0 || cut > |D|
    ensures r.Success? ==> r.value == Values(Replay(D, cut))
  {
    var n := |D| + 1;
    if cut < 0 || cut > n - 1 {
      return Failure("ValueError");
    }
    var cluster := Singletons(n);
    for t := 0 to cut
      invariant cluster == Replay(D, t)
    {
      cluster := MergeRow(D, t, n + t, cluster);
    }
    return Success(Values(cluster));
  }

  /** Every level the materialiser accepts gives a partition of the leaves into n - cut groups; level
      0 is the n singletons and level n-1 the single group of all leaves. */
  lemma ClusteringIsPartition(D: seq<Record>, cut: nat)
    requires WellFormed(D) && cut <= |D|
    ensures IsPartition(Values(Replay(D, cut)), |D| + 1)
    ensures |Values(Replay(D, cut))| == |D| + 1 - cut
    ensures cut == 0 ==> Values(Replay(D, cut)) == seq(|D| + 1, i requires 0 <= i <= |D| => [i])
    ensures cut == |D| ==> Values(Replay(D, cut)) == [LeavesUnder(D, Root(D))]
  {
    ReplayIsPartition(D, cut);
    ReplaySize(D, cut);
    if cut == |D| {
      ReplayAll(D);
    }
  }

  /** `best_homogeneous_cut`: the first level in 0..n-2 whose running score is the largest, when that
      score is positive, and `(0, 0.)` otherwise; the score after the last merge is never tested. */
  method BestHomogeneousCut(D: seq<Record>, scoring: Scoring) returns (bestCut: int, bestScore: real)
    requires WellFormed(D)
    ensures FirstStrictMax(RunningScores(D, scoring, Finite(0.0)), 0, bestCut, bestScore)
    ensures bestScore > 0.0 ==> 0 <= bestCut < |D|
  {
    var n := |D| + 1;
    var clusterTrees := BuildClusterTrees(D, scoring, Finite(0.0));
    bestCut, bestScore := ScanLevels(clusterTrees, n, n - 1);
    TreeRunningScoresAreRunningScores(D, scoring, Finite(0.0), clusterTrees);
  }

  /** The score tested at level t is the sum of the scores of the clusters of that level's partition. */
  lemma TestedScoreIsPartitionScore(D: seq<Record>, scoring: Scoring, t: nat)
    requires WellFormed(D) && t < |D|
    ensures NodeIds(D, Keys(Replay(D, t)))
    ensures RunningScores(D, scoring, Finite(0.0))[t] == SumScores(D, scoring, Finite(0.0), Keys(Replay(D, t)))
  {
    RunningIsClusterScore(D, scoring, t);
  }

  /** `ranking_homogeneous_cuts`: the levels 0..n-2 by non-increasing running score, equal scores in
      ascending level order, each with its score. */
  method RankingHomogeneousCuts(D: seq<Record>, scoring: Scoring) returns (rankedCuts: seq<int>, rankedCutScores: seq<real>)
    requires WellFormed(D)
    ensures |rankedCuts| == |rankedCutScores| == |D|
    ensures Distinct(rankedCuts) && forall t :: 0 <= t < |D| ==> t in rankedCuts
    ensures forall i :: 0 <= i < |D| ==> 0 <= rankedCuts[i] < |D|
    ensures forall i :: 0 <= i < |D| ==> rankedCutScores[i] == Running(D, scoring, Finite(0.0), rankedCuts[i])
    ensures forall i, j :: 0 <= i < j < |D| ==> rankedCutScores[i] >= rankedCutScores[j]
    ensures forall i, j :: 0 <= i < j < |D| && rankedCutScores[i] == rankedCutScores[j] ==> rankedCuts[i] < rankedCuts[j]
  {
    var n := |D| + 1;
    var clusterTrees := BuildClusterTrees(D, scoring, Finite(0.0));
    var cuts := Range(0, n - 1);
    var cutScores := LevelScores(clusterTrees, n, n - 1);
    TreeRunningScoresAreRunningScores(D, scoring, Finite(0.0), clusterTrees);
    var order := RankDescending(cutScores);
    rankedCuts := Permute(cuts, order);
    rankedCutScores := Permute(cutScores, order);
    RankPositions(cutScores);
  }

  /** The best level heads the ranking whenever its score is positive. */
  lemma BestHeadsRanking(D: seq<Record>, scoring: Scoring, bestCut: int, bestScore: real)
    requires WellFormed(D) && FirstStrictMax(RunningScores(D, scoring, Finite(0.0)), 0, bestCut, bestScore)
    requires bestScore > 0.0
    ensures RankDescending(RunningScores(D, scoring, Finite(0.0)))[0] == bestCut
  {
    RankHeadIsFirstMax(RunningScores(D, scoring, Finite(0.0)), 0, bestCut, bestScore);
  }
}
