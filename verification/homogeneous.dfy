/** The homogeneous slicer of the `paris` package. Its materialiser checks nothing, its scorers start
    leaves at distance 1 (so a leaf absorbed at a distance other than 1 scores), and it adds the naive
    baselines that score a level by the jump between consecutive merge distances, and the filter that
    thins a ranking out along the log-distance axis. */
module HomogeneousSlicer {
  import opened Collections
  import opened Dendrograms
  import opened ClusterDicts
  import opened Scores
  import opened Selection
  import opened Sorting
  import opened RankingFilters

  /** `clustering_from_homogeneous_cut`: the clusters after `cut` merges. A negative level merges
      nothing, and a level beyond n-1 reads a row past the end (an IndexError). */
  method ClusteringFromHomogeneousCut(D: seq<Record>, cut: int) returns (r: Result<seq<seq<int>>>)
    requires WellFormed(D)
    ensures r.Failure? <==> cut > |D|
    ensures r.Success? && cut <= 0 ==> r.value == Values(Singletons(|D| + 1))
    ensures r.Success? && cut >= 0 ==> r.value == Values(Replay(D, cut))
  {
    var n := |D| + 1;
    var cluster := Singletons(n);
    var levels := if cut < 0 then 0 else cut;  // `range(cut)` is empty for a negative cut
    for t := 0 to levels
      invariant t <= |D| && cluster == Replay(D, t)
    {
      if t == |D| {
        return Failure("IndexError");
      }
      cluster := MergeRow(D, t, n + t, cluster);
    }
    return Success(Values(cluster));
  }

  /** `best_homogeneous_cut`: as in the checked slicer, with leaves at distance 1. */
  method BestHomogeneousCut(D: seq<Record>, scoring: Scoring) returns (bestCut: int, bestScore: real)
    requires WellFormed(D)
    ensures FirstStrictMax(RunningScores(D, scoring, Finite(1.0)), 0, bestCut, bestScore)
  {
    var n := |D| + 1;
    var clusterTrees := BuildClusterTrees(D, scoring, Finite(1.0));
    bestCut, bestScore := ScanLevels(clusterTrees, n, n - 1);
    TreeRunningScoresAreRunningScores(D, scoring, Finite(1.0), clusterTrees);
  }

  /** With leaves at distance 1 the score tested at level t is the sum of the scores of that level's
      clusters less the sum of the scores the leaves received. */
  lemma TestedScoreIsPartitionScore(D: seq<Record>, scoring: Scoring, t: nat)
    requires WellFormed(D) && t < |D|
    ensures NodeIds(D, Keys(Replay(D, t))) && NodeIds(D, Range(0, |D| + 1))
    ensures RunningScores(D, scoring, Finite(1.0))[t]
         == SumScores(D, scoring, Finite(1.0), Keys(Replay(D, t))) - SumScores(D, scoring, Finite(1.0), Range(0, |D| + 1))
  {
    RunningIsClusterScoreLessLeaves(D, scoring, Finite(1.0), t);
  }

  /** `ranking_homogeneous_cuts`: the levels 0..n-2 by non-increasing running score (leaves at
      distance 1), equal scores in ascending level order, each with its score. */
  method RankingHomogeneousCuts(D: seq<Record>, scoring: Scoring) returns (rankedCuts: seq<int>, rankedCutScores: seq<real>)
    requires WellFormed(D)
    ensures |rankedCuts| == |rankedCutScores| == |D|
    ensures Distinct(rankedCuts) && forall t :: 0 <= t < |D| ==> t in rankedCuts
    ensures forall i :: 0 <= i < |D| ==> 0 <= rankedCuts[i] < |D|
    ensures forall i :: 0 <= i < |D| ==> rankedCutScores[i] == Running(D, scoring, Finite(1.0), rankedCuts[i])
    ensures forall i, j :: 0 <= i < j < |D| ==> rankedCutScores[i] >= rankedCutScores[j]
    ensures forall i, j :: 0 <= i < j < |D| && rankedCutScores[i] == rankedCutScores[j] ==> rankedCuts[i] < rankedCuts[j]
  {
    var n := |D| + 1;
    var clusterTrees := BuildClusterTrees(D, scoring, Finite(1.0));
    var cuts := Range(0, n - 1);
    var cutScores := LevelScores(clusterTrees, n, n - 1);
    TreeRunningScoresAreRunningScores(D, scoring, Finite(1.0), clusterTrees);
    var order := RankDescending(cutScores);
    rankedCuts := Permute(cuts, order);
    rankedCutScores := Permute(cutScores, order);
    RankPositions(cutScores);
  }

  /** The best level heads the ranking whenever its score is positive. */
  lemma BestHeadsRanking(D: seq<Record>, scoring: Scoring, bestCut: int, bestScore: real)
    requires WellFormed(D) && FirstStrictMax(RunningScores(D, scoring, Finite(1.0)), 0, bestCut, bestScore)
    requires bestScore > 0.0
    ensures RankDescending(RunningScores(D, scoring, Finite(1.0)))[0] == bestCut
  {
    RankHeadIsFirstMax(RunningScores(D, scoring, Finite(1.0)), 0, bestCut, bestScore);
  }

  // ---------------------------------------------------------------------------------------------
  // Naive baselines

  /** The jump score of level c: that of merge c against merge c - 1. */
  function LevelJump(D: seq<Record>, jump: (Dist, Dist) -> real, c: int): real
    requires 1 <= c < |D|
  {
    jump(D[c].dist, D[c - 1].dist)
  }

  /** The jump score of level c, for c in 1..n-2, is at position c - 1. */
  lemma JumpScoresByLevel(D: seq<Record>, jump: (Dist, Dist) -> real)
    ensures forall c :: 1 <= c <= |JumpScores(D, jump)| ==> c < |D| && JumpScores(D, jump)[c - 1] == LevelJump(D, jump, c)
  {
    var s := JumpScores(D, jump);
    forall c | 1 <= c <= |s| ensures c < |D| && s[c - 1] == LevelJump(D, jump, c) {
      assert s[c - 1] == jump(D[c - 1 + 1].dist, D[c - 1].dist);
    }
  }

  /** `naive_best_homogeneous_cut`: the first level in 1..n-2 with the largest jump score, and that
      score; with fewer than two merges there is no jump and `np.argmax` raises a ValueError. */
  function NaiveBestHomogeneousCut(D: seq<Record>, jump: (Dist, Dist) -> real): (r: Result<(int, real)>)
    ensures r.Failure? <==> |D| < 2
    ensures r.Success? ==> var (cut, score) := r.value;
              && 1 <= cut < |D| && score == LevelJump(D, jump, cut)
              && (forall c :: 1 <= c < |D| ==> LevelJump(D, jump, c) <= score)
              && (forall c :: 1 <= c < cut ==> LevelJump(D, jump, c) < score)
  {
    var s := JumpScores(D, jump);
    if |s| == 0 then Failure("ValueError")
    else
      JumpScoresByLevel(D, jump);
      var i := ArgMax(s);
      Success((i + 1, s[i]))
  }

  /** The levels 1..m of the scores s of levels 1..m (level c at position c - 1) by non-increasing
      score, ties in ascending level order, each with its score. */
  function RankLevels(s: seq<real>): (r: (seq<int>, seq<real>))
    ensures var (cuts, scores) := r;
            && |cuts| == |scores| == |s|
            && Distinct(cuts) && (forall c :: 1 <= c <= |s| ==> c in cuts)
            && (forall i :: 0 <= i < |s| ==> 1 <= cuts[i] <= |s| && scores[i] == s[cuts[i] - 1])
            && (forall i, j :: 0 <= i < j < |s| ==> scores[i] >= scores[j])
            && (forall i, j :: 0 <= i < j < |s| && scores[i] == scores[j] ==> cuts[i] < cuts[j])
  {
    var order := RankDescending(s);
    var cuts := seq(|s|, i requires 0 <= i < |s| => order[i] + 1);
    RankedLevels(s, order, cuts);
    (cuts, Permute(s, order))
  }

  /** The ranked positions, shifted up by one, are the ranked levels. */
  lemma RankedLevels(s: seq<real>, order: seq<int>, cuts: seq<int>)
    requires order == RankDescending(s) && |cuts| == |s|
    requires forall i :: 0 <= i < |s| ==> cuts[i] == order[i] + 1
    ensures var scores := Permute(s, order);
            && |scores| == |s|
            && Distinct(cuts) && (forall c :: 1 <= c <= |s| ==> c in cuts)
            && (forall i :: 0 <= i < |s| ==> 1 <= cuts[i] <= |s| && scores[i] == s[cuts[i] - 1])
            && (forall i, j :: 0 <= i < j < |s| ==> scores[i] >= scores[j])
            && (forall i, j :: 0 <= i < j < |s| && scores[i] == scores[j] ==> cuts[i] < cuts[j])
  {
    RankPositions(s);
    PermuteRange(order, |s|);
    var scores := Permute(s, order);
    forall i, j | 0 <= i < j < |s| ensures cuts[i] != cuts[j] {
      assert order[i] != order[j];
    }
    forall i | 0 <= i < |s| ensures 1 <= cuts[i] <= |s| && scores[i] == s[cuts[i] - 1] {
      assert 0 <= order[i] < |s|;
    }
    forall c | 1 <= c <= |s| ensures c in cuts {
      assert c - 1 in order;
      var i :| 0 <= i < |s| && order[i] == c - 1;
      assert cuts[i] == c;
    }
  }

  /** `naive_ranking_homogeneous_cuts`: the levels 1..n-2 by non-increasing jump score (ties in
      ascending level order), each with its score. */
  function NaiveRankingHomogeneousCuts(D: seq<Record>, jump: (Dist, Dist) -> real): (r: (seq<int>, seq<real>))
    ensures var (cuts, scores) := r;
            var m := if |D| == 0 then 0 else |D| - 1;
            && |cuts| == |scores| == m
            && Distinct(cuts) && (forall c :: 1 <= c <= m ==> c in cuts)
            && (forall i :: 0 <= i < m ==> 1 <= cuts[i] <= m && scores[i] == LevelJump(D, jump, cuts[i]))
            && (forall i, j :: 0 <= i < j < m ==> scores[i] >= scores[j])
            && (forall i, j :: 0 <= i < j < m && scores[i] == scores[j] ==> cuts[i] < cuts[j])
  {
    JumpScoresByLevel(D, jump);
    RankLevels(JumpScores(D, jump))
  }

  /** When there are at least two merges the naive best level heads the naive ranking. */
  lemma NaiveBestHeadsNaiveRanking(D: seq<Record>, jump: (Dist, Dist) -> real)
    requires |D| >= 2
    ensures NaiveBestHomogeneousCut(D, jump).Success?
    ensures NaiveRankingHomogeneousCuts(D, jump).0[0] == NaiveBestHomogeneousCut(D, jump).value.0
    ensures NaiveRankingHomogeneousCuts(D, jump).1[0] == NaiveBestHomogeneousCut(D, jump).value.1
  {
    RankHeadIsArgMax(JumpScores(D, jump));
  }

  // ---------------------------------------------------------------------------------------------
  // Filtering a ranking

  /** `s_index`: 0 for level 0 and, for level t >= 1, the scaled distance of merge t-1 measured from
      that of merge 0. */
  function LevelAxis(D: seq<Record>, scaling: Dist -> real): (s: seq<real>)
    requires |D| >= 1
    ensures |s| == |D| + 1 && s[0] == 0.0
    ensures forall t :: 1 <= t <= |D| ==> s[t] == scaling(D[t - 1].dist) - scaling(D[0].dist)
  {
    [0.0] + seq(|D|, t requires 0 <= t < |D| => scaling(D[t].dist) - scaling(D[0].dist))
  }

  /** `s_index[s]` as a total function of the level: entries outside the axis are never read. */
  function AxisKey(axis: seq<real>): (key: int -> real)
    ensures forall t :: 0 <= t < |axis| ==> key(t) == axis[t]
  {
    t => if 0 <= t < |axis| then axis[t] else 0.0
  }

  /** `filter_homogeneous_ranking`: keeps, in ranking order, each level whose axis position is not
      within `threshold` times a kept level's position of that kept level, with its score. */
  method FilterHomogeneousRanking(ranking: seq<int>, scores: seq<real>, D: seq<Record>, threshold: real, scaling: Dist -> real)
    returns (filteredRanking: seq<int>, filteredScores: seq<real>)
    requires |D| >= 1 && |scores| >= |ranking|
    requires forall i :: 0 <= i < |ranking| ==> 0 <= ranking[i] <= |D|
    ensures var kept := Survivors(Positions(ranking, AxisKey(LevelAxis(D, scaling))), 0.0, threshold, |ranking|);
            filteredRanking == Permute(ranking, kept) && filteredScores == Permute(scores, kept)
  {
    var sIndex := LevelAxis(D, scaling);
    filteredRanking, filteredScores := FilterRanking(ranking, scores, AxisKey(sIndex), 0.0, threshold);
  }
}
