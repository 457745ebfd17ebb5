/** The greedy filter of a ranking shared by `filter_homogeneous_ranking` and
    `filter_distance_ranking`: walking the ranking from best to worst, an entry is dropped when its
    position on the scaled distance axis lies too close to an entry already kept. */
module RankingFilters {
  import opened Sorting

  function Abs(x: real): real {
    if x < 0.0 then -x else x
  }

  /** A candidate at position b is too close to a kept entry at position a when their gap is below
      `thr` times a's distance from the origin of the axis. */
  predicate TooClose(a: real, b: real, origin: real, thr: real) {
    Abs(a - b) < thr * (a - origin)
  }

  /** Some entry listed in kept excludes entry i. */
  predicate ExcludedBy(pos: seq<real>, origin: real, thr: real, kept: seq<int>, i: int)
    requires 0 <= i < |pos| && forall m :: 0 <= m < |kept| ==> 0 <= kept[m] < |pos|
  {
    exists m :: 0 <= m < |kept| && TooClose(pos[kept[m]], pos[i], origin, thr)
  }

  /** The positions in the ranking of the entries kept among the first k, where `pos[i]` is the axis
      position of the i-th ranked entry. */
  function Survivors(pos: seq<real>, origin: real, thr: real, k: nat): (r: seq<int>)
    requires k <= |pos|
    ensures |r| <= k
    ensures forall m :: 0 <= m < |r| ==> 0 <= r[m] < k
    ensures forall a, b :: 0 <= a < b < |r| ==> r[a] < r[b]
  {
    if k == 0 then []
    else
      var prev := Survivors(pos, origin, thr, k - 1);
      if ExcludedBy(pos, origin, thr, prev, k - 1) then prev else prev + [k - 1]
  }

  /** Step i of the filter: entry i is appended unless a kept entry excludes it. */
  lemma SurvivorsNext(pos: seq<real>, origin: real, thr: real, i: nat)
    requires i < |pos|
    ensures Survivors(pos, origin, thr, i + 1)
         == if ExcludedBy(pos, origin, thr, Survivors(pos, origin, thr, i), i)
            then Survivors(pos, origin, thr, i) else Survivors(pos, origin, thr, i) + [i]
  {
  }

  /** The best-ranked entry is always kept. */
  lemma {:induction false} SurvivorsKeepFirst(pos: seq<real>, origin: real, thr: real, k: nat)
    requires 0 < k <= |pos|
    ensures |Survivors(pos, origin, thr, k)| > 0 && Survivors(pos, origin, thr, k)[0] == 0
  {
    if k > 1 {
      SurvivorsKeepFirst(pos, origin, thr, k - 1);
    }
  }

  /** No entry listed in kept is too close to one listed before it. */
  predicate Separated(pos: seq<real>, origin: real, thr: real, kept: seq<int>)
    requires forall m :: 0 <= m < |kept| ==> 0 <= kept[m] < |pos|
  {
    forall a, b :: 0 <= a < b < |kept| ==> !TooClose(pos[kept[a]], pos[kept[b]], origin, thr)
  }

  /** No kept entry is too close to a kept entry ranked above it. */
  lemma {:induction false} SurvivorsSeparated(pos: seq<real>, origin: real, thr: real, k: nat)
    requires k <= |pos|
    ensures Separated(pos, origin, thr, Survivors(pos, origin, thr, k))
  {
    if k > 0 {
      SurvivorsSeparated(pos, origin, thr, k - 1);
      var prev := Survivors(pos, origin, thr, k - 1);
      if !ExcludedBy(pos, origin, thr, prev, k - 1) {
        var r := prev + [k - 1];
        assert Survivors(pos, origin, thr, k) == r;
        forall a, b | 0 <= a < b < |r| ensures !TooClose(pos[r[a]], pos[r[b]], origin, thr) {
          if b < |prev| {
            assert r[a] == prev[a] && r[b] == prev[b];
          } else {
            assert r[a] == prev[a] && r[b] == k - 1;
            assert !TooClose(pos[prev[a]], pos[k - 1], origin, thr);
          }
        }
      }
    }
  }

  /** An entry is kept exactly when no entry kept above it excludes it. */
  lemma {:induction false} SurvivorsKeptIff(pos: seq<real>, origin: real, thr: real, k: nat, i: int)
    requires 0 <= i < k <= |pos|
    ensures i in Survivors(pos, origin, thr, k) <==> !ExcludedBy(pos, origin, thr, Survivors(pos, origin, thr, i), i)
  {
    if i < k - 1 {
      SurvivorsKeptIff(pos, origin, thr, k - 1, i);
      var prev := Survivors(pos, origin, thr, k - 1);
      assert i in Survivors(pos, origin, thr, k) <==> i in prev;
    }
  }

  /** Survivors among the first k extend those among the first i. */
  lemma {:induction false} SurvivorsPrefix(pos: seq<real>, origin: real, thr: real, i: nat, k: nat)
    requires i <= k <= |pos|
    ensures var s := Survivors(pos, origin, thr, i);
            var r := Survivors(pos, origin, thr, k);
            |s| <= |r| && r[..|s|] == s
  {
    if i < k {
      SurvivorsPrefix(pos, origin, thr, i, k - 1);
      var prev := Survivors(pos, origin, thr, k - 1);
      var s := Survivors(pos, origin, thr, i);
      assert (prev + [k - 1])[..|s|] == prev[..|s|];
    }
  }

  /** A dropped entry is too close to some entry kept above it. */
  lemma DroppedHasWitness(pos: seq<real>, origin: real, thr: real, k: nat, i: int)
    requires 0 <= i < k <= |pos| && i !in Survivors(pos, origin, thr, k)
    ensures exists m :: 0 <= m < |Survivors(pos, origin, thr, k)| && Survivors(pos, origin, thr, k)[m] < i
                        && TooClose(pos[Survivors(pos, origin, thr, k)[m]], pos[i], origin, thr)
  {
    SurvivorsKeptIff(pos, origin, thr, k, i);
    SurvivorsPrefix(pos, origin, thr, i, k);
    var s := Survivors(pos, origin, thr, i);
    var r := Survivors(pos, origin, thr, k);
    assert ExcludedBy(pos, origin, thr, s, i);
    var m :| 0 <= m < |s| && TooClose(pos[s[m]], pos[i], origin, thr);
    assert r[m] == s[m] && s[m] < i;
  }

  /** The axis positions of the ranked entries. */
  function Positions<T>(ranking: seq<T>, key: T -> real): (pos: seq<real>)
    ensures |pos| == |ranking| && forall i :: 0 <= i < |ranking| ==> pos[i] == key(ranking[i])
  {
    seq(|ranking|, i requires 0 <= i < |ranking| => key(ranking[i]))
  }

  /** The state of the filter after the first i entries of the ranking: the entries kept so far,
      in ranking order, with their scores. */
  ghost predicate FilteredUpTo<T>(ranking: seq<T>, scores: seq<real>, key: T -> real, origin: real, threshold: real,
                                  i: nat, filteredRanking: seq<T>, filteredScores: seq<real>)
    requires i <= |ranking| <= |scores|
  {
    var kept := Survivors(Positions(ranking, key), origin, threshold, i);
    filteredRanking == Permute(ranking, kept) && filteredScores == Permute(scores, kept)
  }

  /** The loop both filters run: each entry of the ranking is compared, in order, with the entries
      kept so far and kept, with its score, unless one of them is too close to it. */
  method FilterRanking<T>(ranking: seq<T>, scores: seq<real>, key: T -> real, origin: real, threshold: real)
    returns (filteredRanking: seq<T>, filteredScores: seq<real>)
    requires |scores| >= |ranking|
    ensures var kept := Survivors(Positions(ranking, key), origin, threshold, |ranking|);
            filteredRanking == Permute(ranking, kept) && filteredScores == Permute(scores, kept)
  {
    filteredRanking, filteredScores := [], [];
    for i := 0 to |ranking|
      invariant FilteredUpTo(ranking, scores, key, origin, threshold, i, filteredRanking, filteredScores)
    {
      filteredRanking, filteredScores := FilterEntry(ranking, scores, key, origin, threshold, i, filteredRanking, filteredScores);
    }
  }

  /** One round of the outer loop: entry i is appended, with its score, unless a kept entry is too
      close to it. */
  method FilterEntry<T>(ranking: seq<T>, scores: seq<real>, key: T -> real, origin: real, threshold: real,
                        i: nat, filteredRanking: seq<T>, filteredScores: seq<real>)
    returns (filteredRanking': seq<T>, filteredScores': seq<real>)
    requires i < |ranking| <= |scores|
    requires FilteredUpTo(ranking, scores, key, origin, threshold, i, filteredRanking, filteredScores)
    ensures FilteredUpTo(ranking, scores, key, origin, threshold, i + 1, filteredRanking', filteredScores')
  {
    ghost var pos := Positions(ranking, key);
    ghost var kept := Survivors(pos, origin, threshold, i);
    var t := ranking[i];
    var toExclude := TooCloseToKept(filteredRanking, t, key, origin, threshold);
    assert toExclude <==> ExcludedBy(pos, origin, threshold, kept, i) by {
      forall m | 0 <= m < |kept| ensures pos[kept[m]] == key(filteredRanking[m]) && pos[i] == key(t) { }
    }
    SurvivorsNext(pos, origin, threshold, i);
    filteredRanking', filteredScores' := filteredRanking, filteredScores;
    if !toExclude {
      filteredRanking' := filteredRanking + [t];
      filteredScores' := filteredScores + [scores[i]];
      assert Permute(ranking, kept + [i]) == filteredRanking';
      assert Permute(scores, kept + [i]) == filteredScores';
    }
  }

  /** The inner loop: whether some entry kept so far is too close to t; it stops at the first one. */
  method TooCloseToKept<T>(filteredRanking: seq<T>, t: T, key: T -> real, origin: real, threshold: real)
    returns (toExclude: bool)
    ensures toExclude <==> exists q :: 0 <= q < |filteredRanking| && TooClose(key(filteredRanking[q]), key(t), origin, threshold)
  {
    toExclude := false;
    var q := 0;
    while q < |filteredRanking| && !toExclude
      invariant 0 <= q <= |filteredRanking|
      invariant toExclude ==> exists p :: 0 <= p < q && TooClose(key(filteredRanking[p]), key(t), origin, threshold)
      invariant !toExclude ==> forall p :: 0 <= p < q ==> !TooClose(key(filteredRanking[p]), key(t), origin, threshold)
    {
      var e := filteredRanking[q];
      if Abs(key(e) - key(t)) < threshold * (key(e) - origin) {
        toExclude := true;
      }
      q := q + 1;
    }
  }
}
