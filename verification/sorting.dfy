/** Stable sorting by a key: the index permutation `np.lexsort((range(m), keys))` returns, and the
    order `sorted(xs, key=..., reverse=True)` produces when the key is negated. */
module Sorting {
  import opened Collections
  import opened Dendrograms
  import opened Selection

  /** Index p precedes index q in the stable order of keys: a smaller key, or the same key and an
      earlier position. */
  predicate Before(keys: seq<Dist>, p: int, q: int)
    requires 0 <= p < |keys| && 0 <= q < |keys|
  {
    Less(keys[p], keys[q]) || (keys[p] == keys[q] && p < q)
  }

  /** idx lists positions of keys. */
  predicate Indices(keys: seq<Dist>, idx: seq<int>) {
    forall i :: 0 <= i < |idx| ==> 0 <= idx[i] < |keys|
  }

  /** idx is in strictly increasing stable order. */
  ghost predicate SortedBy(keys: seq<Dist>, idx: seq<int>)
    requires Indices(keys, idx)
  {
    forall i, j :: 0 <= i < j < |idx| ==> Before(keys, idx[i], idx[j])
  }

  /** idx is a permutation of 0..|keys|-1. */
  ghost predicate IsPermutation(keys: seq<Dist>, idx: seq<int>) {
    && |idx| == |keys|
    && Indices(keys, idx)
    && Distinct(idx)
    && forall p :: 0 <= p < |keys| ==> p in idx
  }

  /** Puts p in front of the first entry whose key is larger than p's. */
  function Insert(keys: seq<Dist>, idx: seq<int>, p: int): (r: seq<int>)
    requires Indices(keys, idx) && 0 <= p < |keys|
    ensures Indices(keys, r) && |r| == |idx| + 1
    ensures forall y :: y in r <==> y in idx || y == p
  {
    if idx == [] then [p]
    else if Less(keys[p], keys[idx[0]]) then [p] + idx
    else
      assert idx == [idx[0]] + idx[1..];
      [idx[0]] + Insert(keys, idx[1..], p)
  }

  /** The positions 0..k-1 in stable key order. */
  function ArgSortPrefix(keys: seq<Dist>, k: nat): (r: seq<int>)
    requires k <= |keys|
    ensures Indices(keys, r) && |r| == k
    ensures forall y :: y in r <==> 0 <= y < k
  {
    if k == 0 then [] else Insert(keys, ArgSortPrefix(keys, k - 1), k - 1)
  }

  /** The positions of keys in stable ascending key order. */
  function ArgSort(keys: seq<Dist>): (r: seq<int>)
    ensures Indices(keys, r) && |r| == |keys|
  {
    ArgSortPrefix(keys, |keys|)
  }

  /** Sort keys for a descending order of real scores: the ascending order of their negations. */
  function Negated(scores: seq<real>): (keys: seq<Dist>)
    ensures |keys| == |scores|
    ensures forall i :: 0 <= i < |scores| ==> keys[i] == Finite(-scores[i])
  {
    seq(|scores|, i requires 0 <= i < |scores| => Finite(-scores[i]))
  }

  /** Positions of scores by non-increasing score, ties in their original order (`sorted(...,
      reverse=True)` is stable). */
  function RankDescending(scores: seq<real>): (r: seq<int>)
    ensures |r| == |scores| && forall i :: 0 <= i < |r| ==> 0 <= r[i] < |scores|
  {
    ArgSort(Negated(scores))
  }

  /** `xs` rearranged by the positions idx. */
  function Permute<T>(xs: seq<T>, idx: seq<int>): (r: seq<T>)
    requires forall i :: 0 <= i < |idx| ==> 0 <= idx[i] < |xs|
    ensures |r| == |idx| && forall i :: 0 <= i < |idx| ==> r[i] == xs[idx[i]]
  {
    seq(|idx|, i requires 0 <= i < |idx| => xs[idx[i]])
  }

  // ---------------------------------------------------------------------------------------------

  lemma {:induction false} InsertSorted(keys: seq<Dist>, idx: seq<int>, p: int)
    requires Indices(keys, idx) && 0 <= p < |keys| && SortedBy(keys, idx)
    requires forall i :: 0 <= i < |idx| ==> idx[i] < p
    ensures SortedBy(keys, Insert(keys, idx, p))
  {
    if idx != [] {
      var r := Insert(keys, idx, p);
      if Less(keys[p], keys[idx[0]]) {
        forall j | 0 <= j < |idx| ensures Before(keys, p, idx[j]) {
          if j > 0 {
            assert Before(keys, idx[0], idx[j]);
            LessIsStrictTotalOrder(keys[p], keys[idx[0]], keys[idx[j]]);
          }
        }
        forall i, j | 0 <= i < j < |r| ensures Before(keys, r[i], r[j]) {
          if i > 0 { assert r[i] == idx[i - 1] && r[j] == idx[j - 1]; }
          else { assert r[j] == idx[j - 1]; }
        }
      } else {
        var tail := idx[1..];
        assert SortedBy(keys, tail) by {
          forall i, j | 0 <= i < j < |tail| ensures Before(keys, tail[i], tail[j]) {
            assert tail[i] == idx[i + 1] && tail[j] == idx[j + 1];
          }
        }
        InsertSorted(keys, tail, p);
        var rest := Insert(keys, tail, p);
        assert r == [idx[0]] + rest;
        LessIsStrictTotalOrder(keys[p], keys[idx[0]], keys[p]);
        assert Before(keys, idx[0], p);
        forall k | 0 <= k < |rest| ensures Before(keys, idx[0], rest[k]) {
          assert rest[k] in rest;
          if rest[k] != p {
            var m :| 0 <= m < |tail| && tail[m] == rest[k];
            assert idx[m + 1] == rest[k];
          }
        }
        forall i, j | 0 <= i < j < |r| ensures Before(keys, r[i], r[j]) {
          if i > 0 { assert r[i] == rest[i - 1] && r[j] == rest[j - 1]; }
          else { assert r[j] == rest[j - 1]; }
        }
      }
    }
  }

  lemma {:induction false} ArgSortPrefixSorted(keys: seq<Dist>, k: nat)
    requires k <= |keys|
    ensures SortedBy(keys, ArgSortPrefix(keys, k))
  {
    if k > 0 {
      ArgSortPrefixSorted(keys, k - 1);
      var prev := ArgSortPrefix(keys, k - 1);
      forall i | 0 <= i < |prev| ensures prev[i] < k - 1 {
        assert prev[i] in prev;
      }
      InsertSorted(keys, prev, k - 1);
    }
  }

  /** A list in strict stable order holds no position twice. */
  lemma SortedDistinct(keys: seq<Dist>, idx: seq<int>)
    requires Indices(keys, idx) && SortedBy(keys, idx)
    ensures Distinct(idx)
  {
    forall i, j | 0 <= i < j < |idx| ensures idx[i] != idx[j] {
      assert Before(keys, idx[i], idx[j]);
    }
  }

  /** The stable sort is a permutation of the positions, sorted by key with ties in position order. */
  lemma ArgSortIsStableSort(keys: seq<Dist>)
    ensures IsPermutation(keys, ArgSort(keys))
    ensures SortedBy(keys, ArgSort(keys))
    ensures forall i, j :: 0 <= i < j < |keys| ==> AtMost(keys[ArgSort(keys)[i]], keys[ArgSort(keys)[j]])
    ensures forall i, j :: 0 <= i < j < |keys| && keys[ArgSort(keys)[i]] == keys[ArgSort(keys)[j]]
              ==> ArgSort(keys)[i] < ArgSort(keys)[j]
  {
    var idx := ArgSort(keys);
    ArgSortPrefixSorted(keys, |keys|);
    SortedDistinct(keys, idx);
    forall i, j | 0 <= i < j < |keys| ensures AtMost(keys[idx[i]], keys[idx[j]]) {
      assert Before(keys, idx[i], idx[j]);
      LessIsStrictTotalOrder(keys[idx[i]], keys[idx[j]], keys[idx[i]]);
    }
  }

  /** Inserting the last position of an already sorted range leaves it at the end. */
  lemma {:induction false} InsertAtEnd(keys: seq<Dist>, idx: seq<int>, p: int)
    requires Indices(keys, idx) && 0 <= p < |keys|
    requires forall i :: 0 <= i < |idx| ==> AtMost(keys[idx[i]], keys[p])
    ensures Insert(keys, idx, p) == idx + [p]
  {
    if idx != [] {
      InsertAtEnd(keys, idx[1..], p);
      assert idx == [idx[0]] + idx[1..];
    }
  }

  /** Keys already in non-decreasing order are left where they are. */
  lemma {:induction false} ArgSortOfSorted(keys: seq<Dist>, k: nat)
    requires k <= |keys|
    requires forall i, j :: 0 <= i < j < |keys| ==> AtMost(keys[i], keys[j])
    ensures ArgSortPrefix(keys, k) == Range(0, k)
  {
    if k > 0 {
      ArgSortOfSorted(keys, k - 1);
      InsertAtEnd(keys, Range(0, k - 1), k - 1);
      assert Range(0, k) == Range(0, k - 1) + [k - 1];
    }
  }

  /** Ranking by descending score: a permutation of the positions, non-increasing scores, and equal
      scores in their original order. */
  lemma RankDescendingOrder(scores: seq<real>)
    ensures IsPermutation(Negated(scores), RankDescending(scores))
    ensures forall i, j :: 0 <= i < j < |scores| ==> scores[RankDescending(scores)[i]] >= scores[RankDescending(scores)[j]]
    ensures forall i, j :: 0 <= i < j < |scores| && scores[RankDescending(scores)[i]] == scores[RankDescending(scores)[j]]
              ==> RankDescending(scores)[i] < RankDescending(scores)[j]
  {
    var keys := Negated(scores);
    ArgSortIsStableSort(keys);
    var r := RankDescending(scores);
    forall i, j | 0 <= i < j < |scores| ensures scores[r[i]] >= scores[r[j]] {
      assert AtMost(keys[r[i]], keys[r[j]]);
    }
    forall i, j | 0 <= i < j < |scores| && scores[r[i]] == scores[r[j]] ensures r[i] < r[j] {
      assert keys[r[i]] == keys[r[j]];
    }
  }

  /** The head of the descending ranking is the first position of the strict maximum the `best_*`
      scan selects, whenever that maximum is positive. */
  lemma RankHeadIsFirstMax(scores: seq<real>, dflt: int, i: int, v: real)
    requires FirstStrictMax(scores, dflt, i, v) && v > 0.0
    ensures RankDescending(scores)[0] == i
  {
    RankDescendingOrder(scores);
    var r := RankDescending(scores);
    var keys := Negated(scores);
    assert i in r;
    var j :| 0 <= j < |r| && r[j] == i;
    var h := r[0];
    assert forall k :: 0 <= k < |r| ==> scores[h] >= scores[r[k]];
    assert scores[h] == v;
    assert forall k :: 0 < k < |r| && scores[r[k]] == v ==> h < r[k];
    assert h == i;
  }

  /** Ranking the positions 0..m-1 of m scores together with the scores: the ranked positions are a
      permutation of 0..m-1, each paired with its own score, the scores non-increasing and equal scores
      in ascending position order. */
  lemma RankPositions(scores: seq<real>)
    ensures var o := RankDescending(scores);
            var c := Permute(Range(0, |scores|), o);
            var v := Permute(scores, o);
            && Distinct(c) && (forall p :: 0 <= p < |scores| ==> p in c)
            && (forall i :: 0 <= i < |c| ==> 0 <= c[i] < |scores| && v[i] == scores[c[i]])
            && (forall i, j :: 0 <= i < j < |c| ==> v[i] >= v[j])
            && (forall i, j :: 0 <= i < j < |c| && v[i] == v[j] ==> c[i] < c[j])
  {
    var o := RankDescending(scores);
    RankDescendingOrder(scores);
    PermuteRange(o, |scores|);
  }

  /** Reordering the positions 0..m-1 by o gives o. */
  lemma PermuteRange(o: seq<int>, m: nat)
    requires forall i :: 0 <= i < |o| ==> 0 <= o[i] < m
    ensures Permute(Range(0, m), o) == o
  {
    var c := Permute(Range(0, m), o);
    forall i | 0 <= i < |o| ensures c[i] == o[i] { }
  }

  /** The head of the descending ranking is the position `np.argmax` picks. */
  lemma RankHeadIsArgMax(scores: seq<real>)
    requires |scores| > 0
    ensures RankDescending(scores)[0] == ArgMax(scores)
  {
    RankDescendingOrder(scores);
    var r := RankDescending(scores);
    var i := ArgMax(scores);
    assert i in r;
    var h := r[0];
    assert forall k :: 0 <= k < |r| ==> scores[h] >= scores[r[k]];
    assert scores[h] == scores[i];
    assert forall k :: 0 < k < |r| && scores[r[k]] == scores[i] ==> h < r[k];
    assert h == i;
  }

  /** Reordering a list of distinct entries by a permutation of its positions keeps its entries, and
      keeps them distinct. */
  lemma PermuteDistinct<T>(xs: seq<T>, o: seq<int>)
    requires |o| == |xs| && (forall i :: 0 <= i < |o| ==> 0 <= o[i] < |xs|)
    requires Distinct(o) && forall p :: 0 <= p < |xs| ==> p in o
    requires Distinct(xs)
    ensures Distinct(Permute(xs, o)) && forall x :: x in Permute(xs, o) <==> x in xs
  {
    var c := Permute(xs, o);
    forall i, j | 0 <= i < j < |c| ensures c[i] != c[j] {
      assert o[i] != o[j];
    }
    forall x ensures x in c <==> x in xs {
      if x in xs {
        var k :| 0 <= k < |xs| && xs[k] == x;
        assert k in o;
        var i :| 0 <= i < |o| && o[i] == k;
        assert c[i] == x;
      }
    }
  }
}
