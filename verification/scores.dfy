/** The bottom-up scoring pass the `best_*` and `ranking_*` slicers share: every node is scored when
    the row that merges it into its parent runs, from its size, its own creation distance and the
    parent's distance; a merged node also records the sum of its children's scores (`old_score`).
    Leaves start at a distance that differs between the files (0 or 1), so it is a parameter. */
module Scores {
  import opened Collections
  import opened Dendrograms
  import opened ClusterDicts
  import opened Selection

  /** `scoring(w, x, y)`: size of the node, distance of the merge absorbing it, its own distance. */
  type Scoring = (int, Dist, Dist) -> real

  /** A node's own distance: `leafDist` for a leaf, its row's distance for a merged node. */
  function OwnDist(D: seq<Record>, leafDist: Dist, x: int): Dist
    requires 0 <= x <= Root(D)
  {
    if x < |D| + 1 then leafDist else D[x - |D| - 1].dist
  }

  /** A node's size: 1 for a leaf, its row's size column for a merged node. */
  function OwnSize(D: seq<Record>, x: int): int
    requires 0 <= x <= Root(D)
  {
    if x < |D| + 1 then 1 else D[x - |D| - 1].size
  }

  /** The `.score` node x receives when row t absorbs it: scored when its own distance is above 0,
      and 0 otherwise. */
  function ScoreAt(D: seq<Record>, scoring: Scoring, leafDist: Dist, x: int, t: nat): real
    requires 0 <= x <= Root(D) && t < |D|
  {
    var own := OwnDist(D, leafDist, x);
    if Positive(own) then scoring(OwnSize(D, x), D[t].dist, own) else 0.0
  }

  /** The `.score` field of node x once rows 0..t-1 have run: 0 until a row absorbs x. */
  function ScoreAfter(D: seq<Record>, scoring: Scoring, leafDist: Dist, t: nat, x: int): real
    requires t <= |D| && 0 <= x <= Root(D)
  {
    if t == 0 then 0.0
    else if Uses(D[t - 1], x) then ScoreAt(D, scoring, leafDist, x, t - 1)
    else ScoreAfter(D, scoring, leafDist, t - 1, x)
  }

  /** The `.score` field of node x after the whole pass. */
  function FinalScore(D: seq<Record>, scoring: Scoring, leafDist: Dist, x: int): real
    requires 0 <= x <= Root(D)
  {
    ScoreAfter(D, scoring, leafDist, |D|, x)
  }

  /** `old_score`: 0 for a leaf, the sum of the two children's scores for a merged node. */
  function OldScore(D: seq<Record>, scoring: Scoring, leafDist: Dist, x: int): real
    requires Bounded(D) && 0 <= x <= Root(D)
  {
    if x < |D| + 1 then 0.0
    else
      var t := x - |D| - 1;
      ScoreAt(D, scoring, leafDist, D[t].left, t) + ScoreAt(D, scoring, leafDist, D[t].right, t)
  }

  /** The per-node record of the homogeneous and distance slicers. */
  datatype ClusterTree = ClusterTree(clusterLabel: int, distance: Dist, size: int, score: real, oldScore: real)

  /** Node x as the pass leaves it after rows 0..t-1. */
  function TreeAfter(D: seq<Record>, scoring: Scoring, leafDist: Dist, t: nat, x: int): ClusterTree
    requires Bounded(D) && t <= |D| && 0 <= x <= Root(D)
  {
    ClusterTree(x, OwnDist(D, leafDist, x), OwnSize(D, x), ScoreAfter(D, scoring, leafDist, t, x),
                OldScore(D, scoring, leafDist, x))
  }

  /** The records after the whole first pass: one per id, each as `TreeAfter` describes it. */
  ghost predicate PassRecords(D: seq<Record>, scoring: Scoring, leafDist: Dist, trees: map<int, ClusterTree>) {
    && Bounded(D)
    && (forall x :: x in trees <==> 0 <= x <= Root(D))
    && (forall x :: 0 <= x <= Root(D) ==> trees[x] == TreeAfter(D, scoring, leafDist, |D|, x))
  }

  /** The map `cluster_trees` once rows 0..t-1 have run: the ids 0..n+t-1, each as `TreeAfter`
      describes it. */
  ghost predicate ScoredUpTo(D: seq<Record>, scoring: Scoring, leafDist: Dist, t: nat, trees: map<int, ClusterTree>)
    requires t <= |D|
  {
    && Bounded(D)
    && (forall x :: x in trees <==> 0 <= x < |D| + 1 + t)
    && (forall x :: 0 <= x < |D| + 1 + t ==> trees[x] == TreeAfter(D, scoring, leafDist, t, x))
  }

  /** The first loop of the homogeneous and distance `best_*`/`ranking_*` functions: the map
      `cluster_trees` from every id to its record, with each node's score written by the row that
      absorbs it and nothing popped. */
  method BuildClusterTrees(D: seq<Record>, scoring: Scoring, leafDist: Dist) returns (trees: map<int, ClusterTree>)
    requires WellFormed(D)
    ensures forall x :: x in trees <==> 0 <= x <= Root(D)
    ensures forall x :: 0 <= x <= Root(D) ==> trees[x] == TreeAfter(D, scoring, leafDist, |D|, x)
  {
    var n := |D| + 1;
    trees := map x | 0 <= x < n :: ClusterTree(x, leafDist, 1, 0.0, 0.0);
    for t := 0 to |D|
      invariant ScoredUpTo(D, scoring, leafDist, t, trees)
    {
      trees := ScoreRow(D, scoring, leafDist, t, trees);
    }
  }

  /** One row of that loop: scores both operands against the row's distance (0 when their own
      distance is not positive) and stores the new node with the sum of their scores as `old_score`. */
  method ScoreRow(D: seq<Record>, scoring: Scoring, leafDist: Dist, t: nat, trees: map<int, ClusterTree>)
    returns (after: map<int, ClusterTree>)
    requires WellFormed(D) && t < |D| && ScoredUpTo(D, scoring, leafDist, t, trees)
    ensures ScoredUpTo(D, scoring, leafDist, t + 1, after)
  {
    var n := |D| + 1;
    var i, j := D[t].left, D[t].right;
    assert 0 <= i < n + t && 0 <= j < n + t;
    var leftTree, rightTree := trees[i], trees[j];
    var newDistance, newSize := D[t].dist, D[t].size;
    if Positive(leftTree.distance) {
      leftTree := leftTree.(score := scoring(leftTree.size, newDistance, leftTree.distance));
    } else {
      leftTree := leftTree.(score := 0.0);
    }
    if Positive(rightTree.distance) {
      rightTree := rightTree.(score := scoring(rightTree.size, newDistance, rightTree.distance));
    } else {
      rightTree := rightTree.(score := 0.0);
    }
    after := trees[i := leftTree][j := rightTree];
    after := after[n + t := ClusterTree(n + t, newDistance, newSize, 0.0, leftTree.score + rightTree.score)];
    forall x
      ensures x in after <==> 0 <= x < |D| + 1 + (t + 1)
    {
    }
    forall x | 0 <= x < |D| + 1 + (t + 1)
      ensures after[x] == TreeAfter(D, scoring, leafDist, t + 1, x)
    {
      TreeStep(D, scoring, leafDist, t, x);
    }
  }

  /** What row t changes in the records: the scores of its operands, and the new node's record. */
  lemma TreeStep(D: seq<Record>, scoring: Scoring, leafDist: Dist, t: nat, x: int)
    requires WellFormed(D) && t < |D| && 0 <= x <= |D| + 1 + t
    ensures 0 <= D[t].left <= Root(D) && 0 <= D[t].right <= Root(D)
    ensures Uses(D[t], x) ==> ScoreAfter(D, scoring, leafDist, t + 1, x) == ScoreAt(D, scoring, leafDist, x, t)
    ensures x == |D| + 1 + t ==> ScoreAfter(D, scoring, leafDist, t + 1, x) == 0.0
    ensures x == |D| + 1 + t ==> OldScore(D, scoring, leafDist, x)
                                  == ScoreAt(D, scoring, leafDist, D[t].left, t) + ScoreAt(D, scoring, leafDist, D[t].right, t)
    ensures !Uses(D[t], x) ==> ScoreAfter(D, scoring, leafDist, t + 1, x) == ScoreAfter(D, scoring, leafDist, t, x)
  {
    if x == |D| + 1 + t {
      NewNodeAlive(D, t);
      UnabsorbedScoreZero(D, scoring, leafDist, t + 1, x);
    }
  }

  // ---------------------------------------------------------------------------------------------
  // The running score

  /** The running `score` of the second loop before step t:
      `score = score - cluster_trees[n+t].old_score + cluster_trees[n+t].score`. */
  function Running(D: seq<Record>, scoring: Scoring, leafDist: Dist, t: nat): real
    requires Bounded(D) && t <= |D|
  {
    if t == 0 then 0.0
    else
      var u := |D| + t;
      Running(D, scoring, leafDist, t - 1) - OldScore(D, scoring, leafDist, u) + FinalScore(D, scoring, leafDist, u)
  }

  /** The running score as the second loop computes it from the records, node n+k giving step k. */
  function TreeRunning(trees: map<int, ClusterTree>, n: int, t: nat): real
    requires forall x :: n <= x < n + t ==> x in trees
  {
    if t == 0 then 0.0
    else TreeRunning(trees, n, t - 1) - trees[n + t - 1].oldScore + trees[n + t - 1].score
  }

  /** The running scores the second loop tests at steps 0..m-1. */
  function TreeRunningScores(trees: map<int, ClusterTree>, n: int, m: nat): (s: seq<real>)
    requires forall x :: n <= x < n + m ==> x in trees
    ensures |s| == m && forall t :: 0 <= t < m ==> s[t] == TreeRunning(trees, n, t)
  {
    seq(m, t requires 0 <= t < m => TreeRunning(trees, n, t))
  }

  /** The second loop of the `best_*` homogeneous slicers over the records of nodes n..n+m-1: the
      running score is tested before each step and the first strict maximum kept, from `(0, 0.)`. */
  method ScanLevels(trees: map<int, ClusterTree>, n: int, m: nat) returns (bestCut: int, bestScore: real)
    requires forall x :: n <= x < n + m ==> x in trees
    ensures FirstStrictMax(TreeRunningScores(trees, n, m), 0, bestCut, bestScore)
  {
    ghost var s := TreeRunningScores(trees, n, m);
    bestCut, bestScore := 0, 0.0;
    var score := 0.0;
    for t := 0 to m
      invariant score == TreeRunning(trees, n, t)
      invariant FirstStrictMax(s[..t], 0, bestCut, bestScore)
    {
      ScanStep(s, 0, t, bestCut, bestScore);
      if score > bestScore {
        bestCut := t;
        bestScore := score;
      }
      score := score - trees[n + t].oldScore + trees[n + t].score;
    }
    assert s[..m] == s;
  }

  /** The second loop of the `ranking_*` slicers: the running score recorded before each step. */
  method LevelScores(trees: map<int, ClusterTree>, n: int, m: nat) returns (cutScores: seq<real>)
    requires forall x :: n <= x < n + m ==> x in trees
    ensures cutScores == TreeRunningScores(trees, n, m)
  {
    cutScores := [];
    var score := 0.0;
    for t := 0 to m
      invariant score == TreeRunning(trees, n, t)
      invariant cutScores == TreeRunningScores(trees, n, t)
    {
      cutScores := cutScores + [score];
      score := score - trees[n + t].oldScore + trees[n + t].score;
    }
  }

  /** On the records of the first pass, the loop's running score is the model's. */
  lemma {:induction false} TreeRunningIsRunning(D: seq<Record>, scoring: Scoring, leafDist: Dist, trees: map<int, ClusterTree>, t: nat)
    requires PassRecords(D, scoring, leafDist, trees) && t <= |D|
    ensures TreeRunning(trees, |D| + 1, t) == Running(D, scoring, leafDist, t)
  {
    if t > 0 {
      TreeRunningIsRunning(D, scoring, leafDist, trees, t - 1);
    }
  }

  /** On the records of the first pass, the scores the loop tests are the model's. */
  lemma TreeRunningScoresAreRunningScores(D: seq<Record>, scoring: Scoring, leafDist: Dist, trees: map<int, ClusterTree>)
    requires PassRecords(D, scoring, leafDist, trees)
    ensures TreeRunningScores(trees, |D| + 1, |D|) == RunningScores(D, scoring, leafDist)
  {
    forall t | 0 <= t < |D| ensures TreeRunning(trees, |D| + 1, t) == Running(D, scoring, leafDist, t) {
      TreeRunningIsRunning(D, scoring, leafDist, trees, t);
    }
  }

  /** The running scores tested at steps 0..n-2. */
  function RunningScores(D: seq<Record>, scoring: Scoring, leafDist: Dist): (s: seq<real>)
    requires Bounded(D)
    ensures |s| == |D| && forall t :: 0 <= t < |D| ==> s[t] == Running(D, scoring, leafDist, t)
  {
    seq(|D|, t requires 0 <= t < |D| => Running(D, scoring, leafDist, t))
  }

  /** Sum of the final scores of the nodes xs. */
  function SumScores(D: seq<Record>, scoring: Scoring, leafDist: Dist, xs: seq<int>): real
    requires NodeIds(D, xs)
  {
    if xs == [] then 0.0
    else FinalScore(D, scoring, leafDist, xs[0]) + SumScores(D, scoring, leafDist, xs[1..])
  }

  // ---------------------------------------------------------------------------------------------

  /** Once row s absorbs x no later row touches it, so x keeps the score row s gave it. */
  lemma {:induction false} AbsorbedScoreStays(D: seq<Record>, scoring: Scoring, leafDist: Dist, s: nat, t: nat, x: int)
    requires WellFormed(D) && s < t <= |D| && Uses(D[s], x)
    ensures 0 <= x <= Root(D)
    ensures ScoreAfter(D, scoring, leafDist, t, x) == ScoreAt(D, scoring, leafDist, x, s)
  {
    if t > s + 1 {
      AbsorbedScoreStays(D, scoring, leafDist, s, t - 1, x);
      assert !Uses(D[t - 1], D[s].left) && !Uses(D[t - 1], D[s].right);
    }
  }

  /** A node no row absorbs, the root above all, keeps the score 0. */
  lemma {:induction false} UnabsorbedScoreZero(D: seq<Record>, scoring: Scoring, leafDist: Dist, t: nat, x: int)
    requires t <= |D| && 0 <= x <= Root(D) && !Consumed(D, t, x)
    ensures ScoreAfter(D, scoring, leafDist, t, x) == 0.0
  {
    if t > 0 {
      UnabsorbedScoreZero(D, scoring, leafDist, t - 1, x);
    }
  }

  /** The root's `.score` is never written and stays 0. */
  lemma RootScoreZero(D: seq<Record>, scoring: Scoring, leafDist: Dist)
    requires Bounded(D)
    ensures FinalScore(D, scoring, leafDist, Root(D)) == 0.0
  {
    RootNeverConsumed(D, |D|);
    UnabsorbedScoreZero(D, scoring, leafDist, |D|, Root(D));
  }

  /** With leaves at distance 0 no leaf is ever scored. */
  lemma {:induction false} LeafScoreZero(D: seq<Record>, scoring: Scoring, t: nat, x: int)
    requires t <= |D| && 0 <= x < |D| + 1
    ensures ScoreAfter(D, scoring, Finite(0.0), t, x) == 0.0
  {
    if t > 0 {
      LeafScoreZero(D, scoring, t - 1, x);
    }
  }

  /** A merged node's `old_score` is the sum of its children's final scores. */
  lemma OldScoreIsChildrenScores(D: seq<Record>, scoring: Scoring, leafDist: Dist, t: nat)
    requires WellFormed(D) && t < |D|
    ensures 0 <= D[t].left <= Root(D) && 0 <= D[t].right <= Root(D)
    ensures OldScore(D, scoring, leafDist, |D| + 1 + t)
         == FinalScore(D, scoring, leafDist, D[t].left) + FinalScore(D, scoring, leafDist, D[t].right)
  {
    AbsorbedScoreStays(D, scoring, leafDist, t, |D|, D[t].left);
    AbsorbedScoreStays(D, scoring, leafDist, t, |D|, D[t].right);
  }

  lemma {:induction false} SumScoresRemove(D: seq<Record>, scoring: Scoring, leafDist: Dist, xs: seq<int>, x: int)
    requires NodeIds(D, xs) && Distinct(xs) && x in xs
    ensures NodeIds(D, RemoveId(xs, x)) && 0 <= x <= Root(D)
    ensures SumScores(D, scoring, leafDist, xs)
         == SumScores(D, scoring, leafDist, RemoveId(xs, x)) + FinalScore(D, scoring, leafDist, x)
  {
    NodeIdsRemove(D, xs, x);
    NodeIdsRemove(D, xs[1..], x);
    DistinctTail(xs);
    var rest := RemoveId(xs[1..], x);
    assert RemoveId(xs, x) == (if xs[0] == x then [] else [xs[0]]) + rest;
    if xs[0] == x {
      RemoveIdDistinct(xs[1..], x);
      assert RemoveId(xs, x) == xs[1..];
    } else {
      SumScoresRemove(D, scoring, leafDist, xs[1..], x);
      assert ([xs[0]] + rest)[1..] == rest;
    }
  }

  lemma {:induction false} SumScoresAppend(D: seq<Record>, scoring: Scoring, leafDist: Dist, xs: seq<int>, x: int)
    requires NodeIds(D, xs) && 0 <= x <= Root(D)
    ensures NodeIds(D, xs + [x])
    ensures SumScores(D, scoring, leafDist, xs + [x])
         == SumScores(D, scoring, leafDist, xs) + FinalScore(D, scoring, leafDist, x)
  {
    NodeIdsAppend(D, xs, x);
    if xs != [] {
      assert (xs + [x])[1..] == xs[1..] + [x];
      SumScoresAppend(D, scoring, leafDist, xs[1..], x);
    } else {
      assert [x][1..] == [];
    }
  }

  /** One merge changes the sum of the cluster scores by the new node's score minus its `old_score`. */
  lemma SumScoresStep(D: seq<Record>, scoring: Scoring, leafDist: Dist, s: nat, t: nat)
    requires WellFormed(D) && s < |D| && t == s + 1
    ensures NodeIds(D, Clusters(D, s)) && NodeIds(D, Clusters(D, t))
    ensures SumScores(D, scoring, leafDist, Clusters(D, t))
         == SumScores(D, scoring, leafDist, Clusters(D, s))
            - OldScore(D, scoring, leafDist, |D| + 1 + s) + FinalScore(D, scoring, leafDist, |D| + 1 + s)
  {
    ClustersAreNodes(D, s);
    ClustersAreNodes(D, t);
    var l, r, u := D[s].left, D[s].right, |D| + 1 + s;
    var xs := Clusters(D, s);
    OperandsAlive(D, s);
    AliveInMembers(D, s, 0, u);
    AliveInDistinct(D, s, 0, u);
    SumScoresRemove(D, scoring, leafDist, xs, l);
    RemoveIdDistinct(xs, l);
    SumScoresRemove(D, scoring, leafDist, RemoveId(xs, l), r);
    ClustersStep(D, s, t);
    SumScoresAppend(D, scoring, leafDist, RemoveId(RemoveId(xs, l), r), u);
    OldScoreIsChildrenScores(D, scoring, leafDist, s);
  }

  /** Telescoping: the running score tested at step t is the sum of the scores of the clusters of the
      partition after t merges, less the sum of the leaves' scores. */
  lemma {:induction false} RunningTelescopes(D: seq<Record>, scoring: Scoring, leafDist: Dist, t: nat)
    requires WellFormed(D) && t <= |D|
    ensures NodeIds(D, Clusters(D, t)) && NodeIds(D, Clusters(D, 0))
    ensures Running(D, scoring, leafDist, t)
         == SumScores(D, scoring, leafDist, Clusters(D, t)) - SumScores(D, scoring, leafDist, Clusters(D, 0))
  {
    ClustersAreNodes(D, t);
    ClustersAreNodes(D, 0);
    if t > 0 {
      RunningTelescopes(D, scoring, leafDist, t - 1);
      SumScoresStep(D, scoring, leafDist, t - 1, t);
    }
  }

  lemma {:induction false} LeafSumZero(D: seq<Record>, scoring: Scoring, xs: seq<int>)
    requires NodeIds(D, xs) && forall i :: 0 <= i < |xs| ==> xs[i] < |D| + 1
    ensures SumScores(D, scoring, Finite(0.0), xs) == 0.0
  {
    if xs != [] {
      LeafScoreZero(D, scoring, |D|, xs[0]);
      LeafSumZero(D, scoring, xs[1..]);
    }
  }

  /** With leaves at distance 0 the running score at step t is exactly the sum of the scores of the
      clusters after t merges. */
  lemma RunningIsClusterScore(D: seq<Record>, scoring: Scoring, t: nat)
    requires WellFormed(D) && t <= |D|
    ensures NodeIds(D, Keys(Replay(D, t)))
    ensures Running(D, scoring, Finite(0.0), t) == SumScores(D, scoring, Finite(0.0), Keys(Replay(D, t)))
  {
    RunningTelescopes(D, scoring, Finite(0.0), t);
    ReplayKeys(D, t);
    ClustersInitially(D, 0);
    LeafSumZero(D, scoring, Clusters(D, 0));
  }

  /** With any leaf distance the running score at step t is the sum of the scores of the clusters
      after t merges less the sum of the leaves' scores. */
  lemma RunningIsClusterScoreLessLeaves(D: seq<Record>, scoring: Scoring, leafDist: Dist, t: nat)
    requires WellFormed(D) && t <= |D|
    ensures NodeIds(D, Keys(Replay(D, t))) && NodeIds(D, Range(0, |D| + 1))
    ensures Running(D, scoring, leafDist, t)
         == SumScores(D, scoring, leafDist, Keys(Replay(D, t))) - SumScores(D, scoring, leafDist, Range(0, |D| + 1))
  {
    RunningTelescopes(D, scoring, leafDist, t);
    ReplayKeys(D, t);
    ClustersInitially(D, 0);
  }

  // ---------------------------------------------------------------------------------------------
  // The naive baselines' scores

  /** `scoring(D[1:, 2], D[:-1, 2])`: entry t scores level t+1 by the jump from the distance of
      merge t to that of merge t+1. */
  function JumpScores(D: seq<Record>, jump: (Dist, Dist) -> real): (s: seq<real>)
    ensures |s| == if |D| == 0 then 0 else |D| - 1
    ensures forall t :: 0 <= t < |s| ==> s[t] == jump(D[t + 1].dist, D[t].dist)
  {
    if |D| == 0 then [] else seq(|D| - 1, t requires 0 <= t < |D| - 1 => jump(D[t + 1].dist, D[t].dist))
  }
}
