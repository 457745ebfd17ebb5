/** The distance slicer of the `paris` package: a cut is a distance threshold, materialised by
    applying the merges in order up to the first one above the threshold. Its scorers run the
    homogeneous running score, with leaves at distance 0 for `best_distance` and at distance 1 for
    `ranking_distances`, and report each level by a distance between two consecutive merges. */
module DistanceSlicer {
  import opened Collections
  import opened Dendrograms
  import opened ClusterDicts
  import opened Scores
  import opened Selection
  import opened Sorting
  import opened RankingFilters

  // ---------------------------------------------------------------------------------------------
  // Materialising a threshold

  /** The number of merges applied for `distance`: the position of the first row whose distance is
      above it, or every row when there is none. */
  function MergesApplied(D: seq<Record>, distance: real): (k: nat)
    ensures k <= |D|
    ensures forall t :: 0 <= t < k ==> !Less(Finite(distance), D[t].dist)
    ensures k < |D| ==> Less(Finite(distance), D[k].dist)
  {
    FirstAbove(D, distance, 0)
  }

  function FirstAbove(D: seq<Record>, distance: real, t: nat): (k: nat)
    requires t <= |D|
    ensures t <= k <= |D|
    ensures forall s :: t <= s < k ==> !Less(Finite(distance), D[s].dist)
    ensures k < |D| ==> Less(Finite(distance), D[k].dist)
    decreases |D| - t
  {
    if t == |D| || Less(Finite(distance), D[t].dist) then t else FirstAbove(D, distance, t + 1)
  }

  /** `clustering_from_distance`: the clusters, in dictionary order, once the merges up to the first
      one above `distance` are applied. */
  method ClusteringFromDistance(D: seq<Record>, distance: real) returns (clusters: seq<seq<int>>)
    requires WellFormed(D)
    ensures clusters == Values(Replay(D, MergesApplied(D, distance)))
  {
    var n := |D| + 1;
    var cluster := Singletons(n);
    var t := 0;
    while t < n - 1
      invariant 0 <= t <= |D| && cluster == Replay(D, t)
      invariant FirstAbove(D, distance, t) == MergesApplied(D, distance)
    {
      if Less(Finite(distance), D[t].dist) {
        break;
      }
      cluster := MergeRow(D, t, n + t, cluster);
      t := t + 1;
    }
    clusters := Values(cluster);
  }

  /** The threshold gives a partition of the leaves into n - k groups, k the merges applied; a
      threshold below the first merge distance gives the n singletons. */
  lemma ClusteringFromDistanceIsLevel(D: seq<Record>, distance: real)
    requires WellFormed(D)
    ensures IsPartition(Values(Replay(D, MergesApplied(D, distance))), |D| + 1)
    ensures |Values(Replay(D, MergesApplied(D, distance)))| == |D| + 1 - MergesApplied(D, distance)
    ensures |D| >= 1 && Less(Finite(distance), D[0].dist) ==>
              Values(Replay(D, MergesApplied(D, distance))) == seq(|D| + 1, i requires 0 <= i <= |D| => [i])
  {
    var k := MergesApplied(D, distance);
    ReplayIsPartition(D, k);
    ReplaySize(D, k);
    if |D| >= 1 && Less(Finite(distance), D[0].dist) {
      assert k == 0;
      ReplayNone(D);
    }
  }

  /** A larger threshold never applies fewer merges. */
  lemma MoreDistanceMoreMerges(D: seq<Record>, x: real, y: real)
    requires x <= y
    ensures MergesApplied(D, x) <= MergesApplied(D, y)
  {
  }

  /** The merge distances do not decrease. */
  ghost predicate NonDecreasing(D: seq<Record>) {
    forall s, t :: 0 <= s < t < |D| ==> AtMost(D[s].dist, D[t].dist)
  }

  /** On non-decreasing distances the merges applied are exactly those at or below the threshold. */
  lemma AppliedIffAtMost(D: seq<Record>, distance: real, t: int)
    requires NonDecreasing(D) && 0 <= t < |D|
    ensures t < MergesApplied(D, distance) <==> AtMost(D[t].dist, Finite(distance))
  {
    var k := MergesApplied(D, distance);
    if k <= t && k < |D| {
      LessIsStrictTotalOrder(Finite(distance), D[k].dist, D[t].dist);
    }
  }

  /** On non-decreasing distances a threshold from the distance of merge i-1 up to, but not including,
      that of merge i applies exactly the merges 0..i-1. */
  lemma ThresholdBetweenMerges(D: seq<Record>, distance: real, i: nat)
    requires NonDecreasing(D) && i <= |D|
    requires i > 0 ==> AtMost(D[i - 1].dist, Finite(distance))
    requires i < |D| ==> Less(Finite(distance), D[i].dist)
    ensures MergesApplied(D, distance) == i
  {
    var k := MergesApplied(D, distance);
    if k < i {
      AppliedIffAtMost(D, distance, i - 1);
    } else if i < k {
      AppliedIffAtMost(D, distance, i);
    }
  }

  // ---------------------------------------------------------------------------------------------
  // The best threshold

  /** The scan over the level scores s selected level i with score v (the first position of their
      largest value, or none when it is 0), and reported the distance d between merges i-1 and i. */
  ghost predicate ScanOutcome(D: seq<Record>, s: seq<real>, mean: (Dist, Dist) -> real, i: int, d: real, v: real) {
    && FirstStrictMax(s, 0, i, v)
    && (v > 0.0 ==> 1 <= i < |D| && d == mean(D[i - 1].dist, D[i].dist))
    && (v == 0.0 ==> d == 0.0)
  }

  /** The second loop of `best_distance`: the running-score scan, reporting the mean of the distances
      of merges t-1 and t for the level t it selects. Level 0 is never selected, as its score is 0. */
  method DistanceScan(D: seq<Record>, trees: map<int, ClusterTree>, n: int, mean: (Dist, Dist) -> real)
    returns (bestDistance: real, bestDistanceScore: real)
    requires n == |D| + 1 && forall x :: n <= x < n + |D| ==> x in trees
    ensures exists i :: ScanOutcome(D, TreeRunningScores(trees, n, |D|), mean, i, bestDistance, bestDistanceScore)
  {
    ghost var s := TreeRunningScores(trees, n, |D|);
    ghost var pos := 0;
    bestDistance, bestDistanceScore := 0.0, 0.0;
    var score := 0.0;
    for t := 0 to n - 1
      invariant score == TreeRunning(trees, n, t)
      invariant FirstStrictMax(s[..t], 0, pos, bestDistanceScore)
      invariant bestDistanceScore > 0.0 ==> 1 <= pos < |D| && bestDistance == mean(D[pos - 1].dist, D[pos].dist)
      invariant bestDistanceScore == 0.0 ==> bestDistance == 0.0
    {
      ScanStep(s, 0, t, pos, bestDistanceScore);
      if score > bestDistanceScore {
        bestDistance := mean(D[t - 1].dist, D[t].dist);
        bestDistanceScore := score;
        pos := t;
      }
      score := score - trees[n + t].oldScore + trees[n + t].score;
    }
    assert s[..|D|] == s;
    assert ScanOutcome(D, s, mean, pos, bestDistance, bestDistanceScore);
  }

  /** `best_distance`: with leaves at distance 0, the level the running-score scan selects, reported
      as the mean of the distances of the merge before it and the merge at it, or `(0., 0.)` when no
      level scores above 0. */
  method BestDistance(D: seq<Record>, scoring: Scoring, mean: (Dist, Dist) -> real)
    returns (bestDistance: real, bestDistanceScore: real)
    requires WellFormed(D)
    ensures exists i :: ScanOutcome(D, RunningScores(D, scoring, Finite(0.0)), mean, i, bestDistance, bestDistanceScore)
  {
    var clusterTrees := BuildClusterTrees(D, scoring, Finite(0.0));
    bestDistance, bestDistanceScore := DistanceScan(D, clusterTrees, |D| + 1, mean);
    TreeRunningScoresAreRunningScores(D, scoring, Finite(0.0), clusterTrees);
  }

  /** A mean of two distances lies between them: not below the smaller and below the larger. */
  ghost predicate MeanBetween(mean: (Dist, Dist) -> real) {
    forall a, b :: Less(a, b) ==> AtMost(a, Finite(mean(a, b))) && Less(Finite(mean(a, b)), b)
  }

  /** On strictly increasing distances, and for a mean that lies between its arguments, cutting at the
      best distance materialises exactly the level the scan selected, when it selected one. */
  lemma BestDistanceMaterialisesBestLevel(D: seq<Record>, scoring: Scoring, mean: (Dist, Dist) -> real, i: int, d: real, v: real)
    requires WellFormed(D) && MeanBetween(mean)
    requires forall t :: 1 <= t < |D| ==> Less(D[t - 1].dist, D[t].dist)
    requires ScanOutcome(D, RunningScores(D, scoring, Finite(0.0)), mean, i, d, v) && v > 0.0
    ensures MergesApplied(D, d) == i
    ensures Values(Replay(D, MergesApplied(D, d))) == Values(Replay(D, i))
  {
    forall s, t | 0 <= s < t < |D| ensures AtMost(D[s].dist, D[t].dist) {
      StrictlyIncreasingOrdered(D, s, t);
    }
    ThresholdBetweenMerges(D, d, i);
  }

  lemma {:induction false} StrictlyIncreasingOrdered(D: seq<Record>, s: nat, t: nat)
    requires forall k :: 1 <= k < |D| ==> Less(D[k - 1].dist, D[k].dist)
    requires s < t < |D|
    ensures Less(D[s].dist, D[t].dist)
  {
    if s < t - 1 {
      StrictlyIncreasingOrdered(D, s, t - 1);
      LessIsStrictTotalOrder(D[s].dist, D[t - 1].dist, D[t].dist);
    }
  }

  // ---------------------------------------------------------------------------------------------
  // Ranking thresholds

  /** `distances` of `ranking_distances`: 0 for level 0 and, for level t >= 1, the mean of the
      distances of merges t and t-1 (one entry even when there is no merge). */
  function LevelDistances(D: seq<Record>, mean: (Dist, Dist) -> real): (r: seq<real>)
    ensures |r| == if |D| == 0 then 1 else |D|
    ensures r[0] == 0.0
    ensures forall t :: 1 <= t < |D| ==> r[t] == mean(D[t].dist, D[t - 1].dist)
  {
    [0.0] + MeanDistances(D, mean)
  }

  /** `ranking_distances`: with leaves at distance 1, every level's distance by non-increasing running
      score, equal scores in ascending level order, each with its score. */
  method RankingDistances(D: seq<Record>, scoring: Scoring, mean: (Dist, Dist) -> real)
    returns (rankedDistances: seq<real>, rankedDistanceScores: seq<real>)
    requires WellFormed(D)
    ensures var o := RankDescending(RunningScores(D, scoring, Finite(1.0)));
            && |rankedDistances| == |rankedDistanceScores| == |D|
            && Distinct(o) && (forall t :: 0 <= t < |D| ==> t in o)
            && (forall i :: 0 <= i < |D| ==>
                  (&& 0 <= o[i] < |D|
                   && rankedDistances[i] == LevelDistances(D, mean)[o[i]]
                   && rankedDistanceScores[i] == Running(D, scoring, Finite(1.0), o[i])))
            && (forall i, j :: 0 <= i < j < |D| ==> rankedDistanceScores[i] >= rankedDistanceScores[j])
  {
    var n := |D| + 1;
    var clusterTrees := BuildClusterTrees(D, scoring, Finite(1.0));
    var distances := LevelDistances(D, mean);
    var distanceScores := LevelScores(clusterTrees, n, n - 1);
    TreeRunningScoresAreRunningScores(D, scoring, Finite(1.0), clusterTrees);
    var rankedIndices := RankDescending(distanceScores);
    rankedDistances := Permute(distances, rankedIndices);
    rankedDistanceScores := Permute(distanceScores, rankedIndices);
    RankPositions(distanceScores);
    assert Permute(Range(0, |D|), rankedIndices) == rankedIndices;
  }

  // ---------------------------------------------------------------------------------------------
  // Naive baselines

  /** `mean(D[1:, 2], D[:-1, 2])`: entry t is the mean of the distances of merges t+1 and t. */
  function MeanDistances(D: seq<Record>, mean: (Dist, Dist) -> real): (r: seq<real>)
    ensures |r| == if |D| == 0 then 0 else |D| - 1
    ensures forall t :: 0 <= t < |r| ==> r[t] == mean(D[t + 1].dist, D[t].dist)
  {
    if |D| == 0 then [] else seq(|D| - 1, k requires 0 <= k < |D| - 1 => mean(D[k + 1].dist, D[k].dist))
  }

  /** Position i of the jump scores holds their first largest value `score`, and `distance` is the
      mean distance at i. */
  ghost predicate NaiveBestAt(D: seq<Record>, jump: (Dist, Dist) -> real, mean: (Dist, Dist) -> real, i: int, distance: real, score: real) {
    && 0 <= i < |D| - 1
    && distance == mean(D[i + 1].dist, D[i].dist) && score == jump(D[i + 1].dist, D[i].dist)
    && (forall c :: 0 <= c < |D| - 1 ==> jump(D[c + 1].dist, D[c].dist) <= score)
    && (forall c :: 0 <= c < i ==> jump(D[c + 1].dist, D[c].dist) < score)
  }

  /** `naive_best_distance`: the mean distance at the first position of the largest jump score, and
      that score; with fewer than two merges there is no jump and `np.argmax` raises a ValueError. */
  function NaiveBestDistance(D: seq<Record>, jump: (Dist, Dist) -> real, mean: (Dist, Dist) -> real): (r: Result<(real, real)>)
    ensures r.Failure? <==> |D| < 2
    ensures r.Success? ==> exists i :: NaiveBestAt(D, jump, mean, i, r.value.0, r.value.1)
  {
    var s := JumpScores(D, jump);
    if |s| == 0 then Failure("ValueError")
    else
      var i := ArgMax(s);
      assert NaiveBestAt(D, jump, mean, i, MeanDistances(D, mean)[i], s[i]);
      Success((MeanDistances(D, mean)[i], s[i]))
  }

  /** `naive_ranking_distances`: the mean distances by non-increasing jump score, equal scores in
      ascending position order, each with its score. */
  function NaiveRankingDistances(D: seq<Record>, jump: (Dist, Dist) -> real, mean: (Dist, Dist) -> real): (r: (seq<real>, seq<real>))
    ensures var s := JumpScores(D, jump);
            var o := RankDescending(s);
            && |r.0| == |r.1| == |s|
            && Distinct(o) && (forall t :: 0 <= t < |s| ==> t in o)
            && (forall i :: 0 <= i < |s| ==>
                  (&& 0 <= o[i] < |s|
                   && r.0[i] == mean(D[o[i] + 1].dist, D[o[i]].dist)
                   && r.1[i] == jump(D[o[i] + 1].dist, D[o[i]].dist)))
            && (forall i, j :: 0 <= i < j < |s| ==> r.1[i] >= r.1[j])
  {
    var s := JumpScores(D, jump);
    var rankedIndices := RankDescending(s);
    RankPositions(s);
    assert Permute(Range(0, |s|), rankedIndices) == rankedIndices;
    (Permute(MeanDistances(D, mean), rankedIndices), Permute(s, rankedIndices))
  }

  /** When there are at least two merges the naive best distance heads the naive ranking. */
  lemma NaiveBestHeadsNaiveRanking(D: seq<Record>, jump: (Dist, Dist) -> real, mean: (Dist, Dist) -> real)
    requires |D| >= 2
    ensures NaiveBestDistance(D, jump, mean).Success?
    ensures NaiveRankingDistances(D, jump, mean).0[0] == NaiveBestDistance(D, jump, mean).value.0
    ensures NaiveRankingDistances(D, jump, mean).1[0] == NaiveBestDistance(D, jump, mean).value.1
  {
    RankHeadIsArgMax(JumpScores(D, jump));
  }

  // ---------------------------------------------------------------------------------------------
  // Filtering a ranking

  /** `scaling(e)` for a ranked distance e. */
  function DistanceKey(scaling: Dist -> real): (key: real -> real)
    ensures forall e :: key(e) == scaling(Finite(e))
  {
    e => scaling(Finite(e))
  }

  /** `filter_distance_ranking`: keeps, in ranking order, each distance whose scaled value is not
      within `threshold` times a kept distance's scaled offset from the first merge distance of that
      kept distance, with its score. */
  method FilterDistanceRanking(ranking: seq<real>, scores: seq<real>, D: seq<Record>, threshold: real, scaling: Dist -> real)
    returns (filteredRanking: seq<real>, filteredScores: seq<real>)
    requires |D| >= 1 && |scores| >= |ranking|
    ensures var kept := Survivors(Positions(ranking, DistanceKey(scaling)), scaling(D[0].dist), threshold, |ranking|);
            filteredRanking == Permute(ranking, kept) && filteredScores == Permute(scores, kept)
  {
    var scalingE0 := scaling(D[0].dist);
    filteredRanking, filteredScores := FilterRanking(ranking, scores, DistanceKey(scaling), scalingE0, threshold);
  }
}
