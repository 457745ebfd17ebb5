/** The materialisers' `cluster` dictionary: an insertion-ordered map from cluster id to its leaf
    list, updated per merge by `cluster[n+t] = cluster.pop(i) + cluster.pop(j)`. A Python dict keeps
    insertion order and that order shows in the partitions returned, so the dictionary is a list of
    (key, value) pairs: a pop removes the entry, an insertion of a new key appends one. */
module ClusterDicts {
  import opened Collections
  import opened Dendrograms

  type Dict = seq<(int, seq<int>)>

  function Keys(d: Dict): (r: seq<int>)
    ensures |r| == |d| && forall i :: 0 <= i < |d| ==> r[i] == d[i].0
  {
    if d == [] then [] else [d[0].0] + Keys(d[1..])
  }

  /** `[cluster[c] for c in cluster]` */
  function Values(d: Dict): (r: seq<seq<int>>)
    ensures |r| == |d| && forall i :: 0 <= i < |d| ==> r[i] == d[i].1
  {
    if d == [] then [] else [d[0].1] + Values(d[1..])
  }

  /** `d[k]`; an absent key (a KeyError in Python) reads as the empty list, and the lemmas below show
      that a well-formed dendrogram never asks for one. */
  function Get(d: Dict, k: int): seq<int> {
    if d == [] then [] else if d[0].0 == k then d[0].1 else Get(d[1..], k)
  }

  /** The dictionary once `d.pop(k)` has removed the entry of k. */
  function Remove(d: Dict, k: int): Dict {
    if d == [] then [] else (if d[0].0 == k then [] else [d[0]]) + Remove(d[1..], k)
  }

  /** `d[k] = v`: overwrites an existing key in place, appends a new one. */
  function Put(d: Dict, k: int, v: seq<int>): Dict {
    if d == [] then [(k, v)]
    else if d[0].0 == k then [(k, v)] + d[1..]
    else [d[0]] + Put(d[1..], k, v)
  }

  /** `{u: [u] for u in range(n)}` */
  function Singletons(n: nat): (d: Dict)
    ensures |d| == n && forall i :: 0 <= i < n ==> d[i] == (i, [i])
  {
    seq(n, i requires 0 <= i < n => (i, [i]))
  }

  /** `d[u] = d.pop(i) + d.pop(j)`: the two pops run left to right, then the new key is stored. */
  function MergeStep(d: Dict, i: int, j: int, u: int): Dict {
    var vi := Get(d, i);
    var d1 := Remove(d, i);
    var vj := Get(d1, j);
    Put(Remove(d1, j), u, vi + vj)
  }

  /** The dictionary once rows 0..k-1 have been merged. */
  function Replay(D: seq<Record>, k: nat): Dict
    requires k <= |D|
  {
    if k == 0 then Singletons(|D| + 1)
    else MergeStep(Replay(D, k - 1), D[k - 1].left, D[k - 1].right, |D| + k)
  }

  /** Row t merges its operands into node u = n + t. */
  lemma ReplayNext(D: seq<Record>, t: nat, t': nat, u: int)
    requires t < |D| && t' == t + 1 && u == |D| + 1 + t
    ensures Replay(D, t') == MergeStep(Replay(D, t), D[t].left, D[t].right, u)
  {
  }

  /** Ids in [lo, hi) that are clusters after t merges, ascending. */
  function AliveIn(D: seq<Record>, t: nat, lo: int, hi: int): seq<int>
    requires t <= |D|
    decreases hi - lo
  {
    if lo >= hi then []
    else (if Alive(D, t, lo) then [lo] else []) + AliveIn(D, t, lo + 1, hi)
  }

  /** The clusters after t merges, in dictionary order: the surviving leaves ascending, then the
      surviving merged nodes in creation order (ids ascending in both cases). */
  function Clusters(D: seq<Record>, t: nat): seq<int>
    requires t <= |D|
  {
    AliveIn(D, t, 0, |D| + 1 + t)
  }

  /** xs lists nodes of the dendrogram. */
  ghost predicate NodeIds(D: seq<Record>, xs: seq<int>) {
    Bounded(D) && forall i :: 0 <= i < |xs| ==> 0 <= xs[i] <= Root(D)
  }

  lemma NodeIdsByMembers(D: seq<Record>, xs: seq<int>)
    requires Bounded(D) && forall y :: y in xs ==> 0 <= y <= Root(D)
    ensures NodeIds(D, xs)
  {
    forall i | 0 <= i < |xs| ensures 0 <= xs[i] <= Root(D) { assert xs[i] in xs; }
  }

  lemma NodeIdsRemove(D: seq<Record>, xs: seq<int>, x: int)
    requires NodeIds(D, xs)
    ensures NodeIds(D, RemoveId(xs, x))
  {
    NodeIdsByMembers(D, RemoveId(xs, x));
  }

  /** The entries (x, leaves under x) for the ids xs. */
  function Pairs(D: seq<Record>, xs: seq<int>): (d: Dict)
    requires NodeIds(D, xs)
    ensures |d| == |xs| && forall i :: 0 <= i < |xs| ==> d[i] == (xs[i], LeavesUnder(D, xs[i]))
  {
    seq(|xs|, i requires 0 <= i < |xs| => (xs[i], LeavesUnder(D, xs[i])))
  }

  /** The leaf lists of the ids xs, in order. */
  function Groups(D: seq<Record>, xs: seq<int>): (g: seq<seq<int>>)
    requires NodeIds(D, xs)
    ensures |g| == |xs| && forall i :: 0 <= i < |xs| ==> g[i] == LeavesUnder(D, xs[i])
  {
    seq(|xs|, i requires 0 <= i < |xs| => LeavesUnder(D, xs[i]))
  }

  // ---------------------------------------------------------------------------------------------
  // Facts about AliveIn

  lemma AliveInMembers(D: seq<Record>, t: nat, lo: int, hi: int)
    requires t <= |D|
    ensures forall x :: x in AliveIn(D, t, lo, hi) <==> lo <= x < hi && Alive(D, t, x)
    ensures forall i :: 0 <= i < |AliveIn(D, t, lo, hi)| ==> lo <= AliveIn(D, t, lo, hi)[i] < hi
    ensures forall i, j :: 0 <= i < j < |AliveIn(D, t, lo, hi)| ==> AliveIn(D, t, lo, hi)[i] < AliveIn(D, t, lo, hi)[j]
  {
    AliveInHas(D, t, lo, hi);
    AliveInIncreasing(D, t, lo, hi);
  }

  /** The ids listed by AliveIn are the alive ones of the range. */
  lemma {:induction false} AliveInHas(D: seq<Record>, t: nat, lo: int, hi: int)
    requires t <= |D|
    ensures forall x :: x in AliveIn(D, t, lo, hi) <==> lo <= x < hi && Alive(D, t, x)
    ensures forall i :: 0 <= i < |AliveIn(D, t, lo, hi)| ==> lo <= AliveIn(D, t, lo, hi)[i] < hi
    decreases hi - lo
  {
    if lo < hi {
      var xs, rest := AliveIn(D, t, lo, hi), AliveIn(D, t, lo + 1, hi);
      AliveInHas(D, t, lo + 1, hi);
      assert xs == if Alive(D, t, lo) then [lo] + rest else rest;
    }
  }

  /** AliveIn lists its ids in increasing order. */
  lemma {:induction false} AliveInIncreasing(D: seq<Record>, t: nat, lo: int, hi: int)
    requires t <= |D|
    ensures forall i, j :: 0 <= i < j < |AliveIn(D, t, lo, hi)| ==> AliveIn(D, t, lo, hi)[i] < AliveIn(D, t, lo, hi)[j]
    decreases hi - lo
  {
    if lo < hi {
      var xs, rest := AliveIn(D, t, lo, hi), AliveIn(D, t, lo + 1, hi);
      AliveInIncreasing(D, t, lo + 1, hi);
      if Alive(D, t, lo) {
        AliveInHas(D, t, lo + 1, hi);
        assert xs == [lo] + rest;
        ConsIncreasing(lo, rest);
      } else {
        assert xs == rest;
      }
    }
  }

  /** Putting an id below all of an increasing list in front keeps it increasing. */
  lemma ConsIncreasing(x: int, rest: seq<int>)
    requires forall k :: 0 <= k < |rest| ==> x < rest[k]
    requires forall i, j :: 0 <= i < j < |rest| ==> rest[i] < rest[j]
    ensures forall i, j :: 0 <= i < j < |[x] + rest| ==> ([x] + rest)[i] < ([x] + rest)[j]
  {
    var xs := [x] + rest;
    forall i, j | 0 <= i < j < |xs| ensures xs[i] < xs[j] {
      assert xs[j] == rest[j - 1];
      if i > 0 { assert xs[i] == rest[i - 1]; }
    }
  }

  lemma AliveInDistinct(D: seq<Record>, t: nat, lo: int, hi: int)
    requires t <= |D|
    ensures Distinct(AliveIn(D, t, lo, hi))
  {
    AliveInMembers(D, t, lo, hi);
  }

  /** Growing the range by one id at the top appends that id when it is alive. */
  lemma {:induction false} AliveInExtend(D: seq<Record>, t: nat, lo: int, hi: int)
    requires t <= |D| && lo <= hi
    ensures AliveIn(D, t, lo, hi + 1) == AliveIn(D, t, lo, hi) + (if Alive(D, t, hi) then [hi] else [])
    decreases hi - lo
  {
    if lo < hi {
      AliveInExtend(D, t, lo + 1, hi);
    }
  }

  /** After row t, the ids below n+t that stay alive are those alive before it minus its operands. */
  lemma {:induction false} AliveInAfterMerge(D: seq<Record>, t: nat, lo: int, hi: int)
    requires t < |D| && hi <= |D| + 1 + t
    ensures RemoveId(RemoveId(AliveIn(D, t, lo, hi), D[t].left), D[t].right) == AliveIn(D, t + 1, lo, hi)
    decreases hi - lo
  {
    if lo < hi {
      AliveInAfterMerge(D, t, lo + 1, hi);
      var l, r := D[t].left, D[t].right;
      var head := if Alive(D, t, lo) then [lo] else [];
      var rest := AliveIn(D, t, lo + 1, hi);
      RemoveIdConcat(head, rest, l);
      RemoveIdConcat(RemoveId(head, l), RemoveId(rest, l), r);
      assert Alive(D, t + 1, lo) <==> Alive(D, t, lo) && lo != l && lo != r;
    }
  }

  /** Before any merge the clusters are the leaves 0..n-1. */
  lemma {:induction false} ClustersInitially(D: seq<Record>, lo: int)
    requires 0 <= lo <= |D| + 1
    ensures AliveIn(D, 0, lo, |D| + 1) == Range(lo, |D| + 1)
    decreases |D| + 1 - lo
  {
    if lo < |D| + 1 {
      ClustersInitially(D, lo + 1);
    }
  }

  /** One merge replaces its two operands by the node it creates, appended at the end. */
  lemma ClustersStep(D: seq<Record>, t: nat, t': nat)
    requires WellFormed(D) && t < |D| && t' == t + 1
    ensures Clusters(D, t')
         == RemoveId(RemoveId(Clusters(D, t), D[t].left), D[t].right) + [|D| + 1 + t]
  {
    var u := |D| + 1 + t;
    NewNodeAlive(D, t);
    AliveInExtend(D, t + 1, 0, u);
    assert AliveIn(D, t + 1, 0, u + 1) == AliveIn(D, t + 1, 0, u) + [u];
    AliveInAfterMerge(D, t, 0, u);
    assert Clusters(D, t + 1) == AliveIn(D, t + 1, 0, u + 1);
    assert Clusters(D, t) == AliveIn(D, t, 0, u);
  }

  /** The partition after t merges has n - t clusters. */
  lemma {:induction false} ClustersCount(D: seq<Record>, t: nat)
    requires WellFormed(D) && t <= |D|
    ensures |Clusters(D, t)| == |D| + 1 - t
  {
    if t == 0 {
      ClustersInitially(D, 0);
    } else {
      var s := t - 1;
      ClustersCount(D, s);
      ClustersStep(D, s, t);
      OperandsAlive(D, s);
      var xs := Clusters(D, s);
      AliveInMembers(D, s, 0, |D| + 1 + s);
      AliveInDistinct(D, s, 0, |D| + 1 + s);
      RemoveIdDistinct(xs, D[s].left);
      RemoveIdDistinct(RemoveId(xs, D[s].left), D[s].right);
    }
  }

  /** Once every row is merged the root is the only cluster left. */
  lemma ClustersAtEnd(D: seq<Record>)
    requires WellFormed(D)
    ensures Clusters(D, |D|) == [Root(D)]
  {
    ClustersCount(D, |D|);
    RootNeverConsumed(D, |D|);
    AliveInMembers(D, |D|, 0, 2 * |D| + 1);
    var xs := Clusters(D, |D|);
    assert Root(D) in xs;
  }

  // ---------------------------------------------------------------------------------------------
  // The dictionary against the cluster ids

  lemma {:induction false} RemovePairs(D: seq<Record>, xs: seq<int>, x: int)
    requires NodeIds(D, xs)
    ensures NodeIds(D, RemoveId(xs, x)) && Remove(Pairs(D, xs), x) == Pairs(D, RemoveId(xs, x))
  {
    NodeIdsRemove(D, xs, x);
    if xs != [] {
      var a, tail := xs[0], xs[1..];
      PairsTail(D, xs);
      RemovePairs(D, tail, x);
      var rest := RemoveId(tail, x);
      if a != x {
        assert RemoveId(xs, x) == [a] + rest;
        PairsCons(D, a, rest);
      } else {
        assert RemoveId(xs, x) == rest;
      }
    }
  }

  /** The entries of xs are the entry of its first id followed by those of the others. */
  lemma PairsTail(D: seq<Record>, xs: seq<int>)
    requires NodeIds(D, xs) && xs != []
    ensures NodeIds(D, xs[1..])
    ensures Pairs(D, xs)[0] == (xs[0], LeavesUnder(D, xs[0])) && Pairs(D, xs)[1..] == Pairs(D, xs[1..])
  {
  }

  lemma PairsCons(D: seq<Record>, a: int, xs: seq<int>)
    requires NodeIds(D, [a] + xs)
    ensures NodeIds(D, xs) && 0 <= a <= Root(D)
    ensures Pairs(D, [a] + xs) == [(a, LeavesUnder(D, a))] + Pairs(D, xs)
  {
    var ys := [a] + xs;
    assert ys[0] == a;
    assert forall i :: 0 <= i < |xs| ==> xs[i] == ys[i + 1];
    var p, q := Pairs(D, ys), [(a, LeavesUnder(D, a))] + Pairs(D, xs);
    forall i | 0 <= i < |ys| ensures p[i] == q[i] {
      if i > 0 {
        assert ys[i] == xs[i - 1];
      }
    }
  }

  lemma {:induction false} GetPairs(D: seq<Record>, xs: seq<int>, x: int)
    requires NodeIds(D, xs)
    requires x in xs
    ensures Get(Pairs(D, xs), x) == LeavesUnder(D, x)
  {
    if xs[0] != x {
      assert Pairs(D, xs)[1..] == Pairs(D, xs[1..]);
      GetPairs(D, xs[1..], x);
    }
  }

  lemma KeysPairs(D: seq<Record>, xs: seq<int>)
    requires NodeIds(D, xs)
    ensures Keys(Pairs(D, xs)) == xs
  {
  }

  lemma {:induction false} PutNewKey(d: Dict, k: int, v: seq<int>)
    requires k !in Keys(d)
    ensures Put(d, k, v) == d + [(k, v)]
  {
    if d != [] {
      assert Keys(d[1..]) == Keys(d)[1..];
      PutNewKey(d[1..], k, v);
    }
  }

  /** The dictionary after t merges maps each cluster of the partition to the leaves under it, in
      the order of Clusters: surviving leaves ascending, then merged nodes in creation order. */
  lemma {:induction false} ReplayIsClusters(D: seq<Record>, t: nat)
    requires WellFormed(D) && t <= |D|
    ensures NodeIds(D, Clusters(D, t))
    ensures Replay(D, t) == Pairs(D, Clusters(D, t))
  {
    ClustersAreNodes(D, t);
    if t == 0 {
      ClustersInitially(D, 0);
      assert Replay(D, 0) == Pairs(D, Clusters(D, 0));
    } else {
      ReplayIsClusters(D, t - 1);
      ReplayStep(D, t - 1, t);
    }
  }

  lemma ClustersAreNodes(D: seq<Record>, t: nat)
    requires Bounded(D) && t <= |D|
    ensures NodeIds(D, Clusters(D, t))
  {
    AliveInMembers(D, t, 0, |D| + 1 + t);
  }

  /** One merge of the dictionary, against one step of Clusters. */
  lemma ReplayStep(D: seq<Record>, s: nat, t: nat)
    requires WellFormed(D) && s < |D| && t == s + 1
    requires NodeIds(D, Clusters(D, s)) && Replay(D, s) == Pairs(D, Clusters(D, s))
    ensures NodeIds(D, Clusters(D, t)) && Replay(D, t) == Pairs(D, Clusters(D, t))
  {
    var l, r, u := D[s].left, D[s].right, |D| + 1 + s;
    ClustersMergePairs(D, s, t, l, r, u);
    ReplayNext(D, s, t, u);
  }

  /** Merging row s in the entries of the clusters before it gives the entries of the clusters
      after it. */
  lemma ClustersMergePairs(D: seq<Record>, s: nat, t: nat, l: int, r: int, u: int)
    requires WellFormed(D) && s < |D| && t == s + 1
    requires l == D[s].left && r == D[s].right && u == |D| + 1 + s
    ensures NodeIds(D, Clusters(D, s)) && NodeIds(D, Clusters(D, t))
    ensures MergeStep(Pairs(D, Clusters(D, s)), l, r, u) == Pairs(D, Clusters(D, t))
  {
    var xs := Clusters(D, s);
    ClustersAreNodes(D, s);
    ClustersAreNodes(D, t);
    MergeOperands(D, s, l, r, u);
    ClustersStep(D, s, t);
    MergePairs(D, xs, l, r, u, Clusters(D, t));
  }

  /** Row s merges two different clusters of the partition before it into a node that is not one yet,
      and that node holds their leaves. */
  lemma MergeOperands(D: seq<Record>, s: nat, l: int, r: int, u: int)
    requires WellFormed(D) && s < |D|
    requires l == D[s].left && r == D[s].right && u == |D| + 1 + s
    ensures l in Clusters(D, s) && r in Clusters(D, s) && l != r && u !in Clusters(D, s) && 0 <= u <= Root(D)
    ensures LeavesUnder(D, u) == LeavesUnder(D, l) + LeavesUnder(D, r)
  {
    OperandsAlive(D, s);
    NewNodeAlive(D, s);
    AliveInMembers(D, s, 0, u);
  }

  /** Popping both operands l and r of a merge from the entries of xs and storing the node u they
      form appends the entry of u. */
  lemma MergePairs(D: seq<Record>, xs: seq<int>, l: int, r: int, u: int, next: seq<int>)
    requires NodeIds(D, xs) && l in xs && r in xs && l != r && u !in xs && 0 <= u <= Root(D)
    requires LeavesUnder(D, u) == LeavesUnder(D, l) + LeavesUnder(D, r)
    requires next == RemoveId(RemoveId(xs, l), r) + [u]
    ensures NodeIds(D, next) && MergeStep(Pairs(D, xs), l, r, u) == Pairs(D, next)
  {
    var xs1 := RemoveId(xs, l);
    var xs2 := RemoveId(xs1, r);
    RemoveTwice(xs, l, r, u);
    NodeIdsRemove(D, xs, l);
    NodeIdsRemove(D, xs1, r);
    NodeIdsAppend(D, xs2, u);
    DictMerge(D, xs, l, r, u, LeavesUnder(D, u));
    PairsAppend(D, xs2, u);
  }

  lemma NodeIdsAppend(D: seq<Record>, xs: seq<int>, x: int)
    requires NodeIds(D, xs) && 0 <= x <= Root(D)
    ensures NodeIds(D, xs + [x])
  {
    assert forall i :: 0 <= i < |xs| ==> (xs + [x])[i] == xs[i];
  }

  lemma PairsAppend(D: seq<Record>, xs: seq<int>, x: int)
    requires NodeIds(D, xs + [x])
    ensures NodeIds(D, xs) && 0 <= x <= Root(D)
    ensures Pairs(D, xs + [x]) == Pairs(D, xs) + [(x, LeavesUnder(D, x))]
  {
    assert forall i :: 0 <= i < |xs| ==> xs[i] == (xs + [x])[i];
    assert (xs + [x])[|xs|] == x;
  }

  lemma DictMerge(D: seq<Record>, xs: seq<int>, l: int, r: int, u: int, v: seq<int>)
    requires NodeIds(D, xs) && l in xs && r in RemoveId(xs, l) && u !in RemoveId(RemoveId(xs, l), r)
    requires v == LeavesUnder(D, l) + LeavesUnder(D, r)
    ensures NodeIds(D, RemoveId(RemoveId(xs, l), r))
    ensures MergeStep(Pairs(D, xs), l, r, u) == Pairs(D, RemoveId(RemoveId(xs, l), r)) + [(u, v)]
  {
    GetPairs(D, xs, l);
    RemovePairs(D, xs, l);
    var xs1 := RemoveId(xs, l);
    GetPairs(D, xs1, r);
    RemovePairs(D, xs1, r);
    var xs2 := RemoveId(xs1, r);
    KeysPairs(D, xs2);
    PutNewKey(Pairs(D, xs2), u, v);
  }

  /** The keys of the dictionary after t merges are the clusters of the partition. */
  lemma ReplayKeys(D: seq<Record>, t: nat)
    requires WellFormed(D) && t <= |D|
    ensures Keys(Replay(D, t)) == Clusters(D, t)
  {
    ReplayIsClusters(D, t);
    KeysPairs(D, Clusters(D, t));
  }

  /** The partition after t merges: for each cluster, the leaves under it. */
  lemma ReplayGroups(D: seq<Record>, t: nat)
    requires WellFormed(D) && t <= |D|
    ensures NodeIds(D, Clusters(D, t))
    ensures Values(Replay(D, t)) == Groups(D, Clusters(D, t))
  {
    ReplayIsClusters(D, t);
  }

  // ---------------------------------------------------------------------------------------------
  // Partitions

  /** `groups` is a partition of the leaves 0..n-1: non-empty lists whose concatenation holds each
      leaf exactly once. */
  ghost predicate IsPartition(groups: seq<seq<int>>, n: nat) {
    && (forall i :: 0 <= i < |groups| ==> groups[i] != [])
    && multiset(Flatten(groups)) == multiset(Range(0, n))
  }

  lemma FlattenGroupsCons(D: seq<Record>, a: int, xs: seq<int>)
    requires NodeIds(D, [a] + xs)
    ensures NodeIds(D, xs) && 0 <= a <= Root(D)
    ensures Flatten(Groups(D, [a] + xs)) == LeavesUnder(D, a) + Flatten(Groups(D, xs))
  {
    assert ([a] + xs)[0] == a;
    assert forall i :: 0 <= i < |xs| ==> xs[i] == ([a] + xs)[i + 1];
    assert Groups(D, [a] + xs)[1..] == Groups(D, xs);
  }

  /** Removing x from distinct node ids removes the leaves under x from their concatenated groups. */
  lemma {:induction false} FlattenGroupsRemove(D: seq<Record>, xs: seq<int>, x: int)
    requires NodeIds(D, xs)
    requires Distinct(xs) && x in xs
    ensures NodeIds(D, RemoveId(xs, x)) && 0 <= x <= Root(D)
    ensures multiset(Flatten(Groups(D, xs)))
         == multiset(Flatten(Groups(D, RemoveId(xs, x)))) + multiset(LeavesUnder(D, x))
    decreases |xs|, 1
  {
    NodeIdsRemove(D, xs, x);
    if xs[0] == x {
      var tail := xs[1..];
      assert xs == [x] + tail;
      FlattenGroupsCons(D, x, tail);
      DistinctTail(xs);
      RemoveIdDistinct(tail, x);
      assert RemoveId(xs, x) == tail;
    } else {
      FlattenGroupsRemoveLater(D, xs, x);
    }
  }

  /** The case of FlattenGroupsRemove where x is not the first id. */
  lemma {:induction false} FlattenGroupsRemoveLater(D: seq<Record>, xs: seq<int>, x: int)
    requires NodeIds(D, xs)
    requires Distinct(xs) && x in xs && xs[0] != x
    ensures NodeIds(D, RemoveId(xs, x))
    ensures multiset(Flatten(Groups(D, xs)))
         == multiset(Flatten(Groups(D, RemoveId(xs, x)))) + multiset(LeavesUnder(D, x))
    decreases |xs|, 0
  {
    NodeIdsRemove(D, xs, x);
    var a, tail := xs[0], xs[1..];
    assert xs == [a] + tail;
    FlattenGroupsCons(D, a, tail);
    DistinctTail(xs);
    NodeIdsRemove(D, tail, x);
    var rest := RemoveId(tail, x);
    assert RemoveId(xs, x) == [a] + rest;
    FlattenGroupsRemove(D, tail, x);
    FlattenGroupsCons(D, a, rest);
    MultisetRegroup(LeavesUnder(D, a), Flatten(Groups(D, tail)), Flatten(Groups(D, rest)), LeavesUnder(D, x));
  }

  /** (a + t) and (a + r) + x hold the same elements when t and r + x do. */
  lemma MultisetRegroup(a: seq<int>, t: seq<int>, r: seq<int>, x: seq<int>)
    requires multiset(t) == multiset(r) + multiset(x)
    ensures multiset(a + t) == multiset(a + r) + multiset(x)
  {
  }

  lemma {:induction false} FlattenGroupsAppend(D: seq<Record>, xs: seq<int>, x: int)
    requires NodeIds(D, xs)
    requires 0 <= x <= Root(D)
    ensures Flatten(Groups(D, xs + [x])) == Flatten(Groups(D, xs)) + LeavesUnder(D, x)
  {
    assert Groups(D, xs + [x]) == Groups(D, xs) + [LeavesUnder(D, x)];
    FlattenAppend(Groups(D, xs), LeavesUnder(D, x));
  }

  lemma GroupsConcat(D: seq<Record>, a: seq<int>, b: seq<int>)
    requires NodeIds(D, a) && NodeIds(D, b)
    ensures NodeIds(D, a + b) && Groups(D, a + b) == Groups(D, a) + Groups(D, b)
  {
    assert NodeIds(D, a + b);
    var g := Groups(D, a + b);
    assert forall i :: 0 <= i < |g| ==> g[i] == (Groups(D, a) + Groups(D, b))[i];
  }

  /** The leaves under the clusters after t merges hold each leaf exactly once. */
  lemma {:induction false} ClustersCoverLeaves(D: seq<Record>, t: nat)
    requires WellFormed(D) && t <= |D|
    ensures NodeIds(D, Clusters(D, t))
    ensures multiset(Flatten(Groups(D, Clusters(D, t)))) == multiset(Range(0, |D| + 1))
  {
    ClustersAreNodes(D, t);
    if t == 0 {
      CoverInitially(D);
    } else {
      ClustersCoverLeaves(D, t - 1);
      CoverStep(D, t - 1, t);
    }
  }

  lemma CoverInitially(D: seq<Record>)
    requires Bounded(D)
    ensures NodeIds(D, Clusters(D, 0))
    ensures Flatten(Groups(D, Clusters(D, 0))) == Range(0, |D| + 1)
  {
    ClustersInitially(D, 0);
    FlattenLeafGroups(D, 0);
  }

  lemma {:induction false} FlattenLeafGroups(D: seq<Record>, lo: nat)
    requires Bounded(D) && lo <= |D| + 1
    ensures NodeIds(D, Range(lo, |D| + 1))
    ensures Flatten(Groups(D, Range(lo, |D| + 1))) == Range(lo, |D| + 1)
    decreases |D| + 1 - lo
  {
    if lo < |D| + 1 {
      FlattenLeafGroups(D, lo + 1);
      assert Range(lo, |D| + 1) == [lo] + Range(lo + 1, |D| + 1);
      FlattenGroupsCons(D, lo, Range(lo + 1, |D| + 1));
    }
  }

  lemma CoverStep(D: seq<Record>, s: nat, t: nat)
    requires WellFormed(D) && s < |D| && t == s + 1 && NodeIds(D, Clusters(D, s))
    ensures NodeIds(D, Clusters(D, t))
    ensures multiset(Flatten(Groups(D, Clusters(D, t)))) == multiset(Flatten(Groups(D, Clusters(D, s))))
  {
    ClustersAreNodes(D, t);
    var l, r, u := D[s].left, D[s].right, |D| + 1 + s;
    var ys := Clusters(D, s);
    OperandsAlive(D, s);
    AliveInMembers(D, s, 0, u);
    AliveInDistinct(D, s, 0, u);
    assert l in ys && r in ys;
    assert LeavesUnder(D, u) == LeavesUnder(D, l) + LeavesUnder(D, r);
    MergeKeepsLeaves(D, ys, l, r, u);
    ClustersStep(D, s, t);
  }

  /** Replacing the distinct ids l and r by the node u they form keeps the leaves under the ids. */
  lemma MergeKeepsLeaves(D: seq<Record>, xs: seq<int>, l: int, r: int, u: int)
    requires NodeIds(D, xs) && Distinct(xs) && l in xs && r in xs && l != r && 0 <= u <= Root(D)
    requires LeavesUnder(D, u) == LeavesUnder(D, l) + LeavesUnder(D, r)
    ensures NodeIds(D, RemoveId(RemoveId(xs, l), r) + [u])
    ensures multiset(Flatten(Groups(D, RemoveId(RemoveId(xs, l), r) + [u]))) == multiset(Flatten(Groups(D, xs)))
  {
    var xs1 := RemoveId(xs, l);
    var xs2 := RemoveId(xs1, r);
    FlattenGroupsRemove(D, xs, l);
    RemoveIdDistinct(xs, l);
    FlattenGroupsRemove(D, xs1, r);
    FlattenGroupsAppend(D, xs2, u);
    NodeIdsAppend(D, xs2, u);
  }

  /** Every dictionary the replay goes through holds a partition of the leaves 0..n-1. */
  lemma ReplayIsPartition(D: seq<Record>, t: nat)
    requires WellFormed(D) && t <= |D|
    ensures IsPartition(Values(Replay(D, t)), |D| + 1)
  {
    ReplayGroups(D, t);
    ClustersCoverLeaves(D, t);
    var xs := Clusters(D, t);
    forall i | 0 <= i < |xs| ensures LeavesUnder(D, xs[i]) != [] {
      LeavesUnderAreLeaves(D, xs[i]);
    }
  }

  /** The partition after t merges has n - t groups. */
  lemma ReplaySize(D: seq<Record>, t: nat)
    requires WellFormed(D) && t <= |D|
    ensures |Replay(D, t)| == |D| + 1 - t
  {
    ReplayIsClusters(D, t);
    ClustersCount(D, t);
  }

  /** No merge: the n singletons in leaf order. */
  lemma ReplayNone(D: seq<Record>)
    ensures Values(Replay(D, 0)) == seq(|D| + 1, i requires 0 <= i <= |D| => [i])
  {
  }

  /** All merges: one group holding every leaf once, the leaves of the root. */
  lemma ReplayAll(D: seq<Record>)
    requires WellFormed(D)
    ensures Values(Replay(D, |D|)) == [LeavesUnder(D, Root(D))]
    ensures multiset(LeavesUnder(D, Root(D))) == multiset(Range(0, |D| + 1))
  {
    ReplayGroups(D, |D|);
    ClustersAtEnd(D);
    ReplayIsPartition(D, |D|);
    assert Flatten([LeavesUnder(D, Root(D))]) == LeavesUnder(D, Root(D)) + Flatten([LeavesUnder(D, Root(D))][1..]);
  }

  /** Right after row t runs, the entry of the node it created holds the leaves under that node. */
  lemma ReplayNewest(D: seq<Record>, t: nat, u: int, d: Dict)
    requires WellFormed(D) && t < |D| && u == |D| + 1 + t && d == Replay(D, t + 1)
    ensures Get(d, u) == LeavesUnder(D, u)
  {
    ReplayIsClusters(D, t + 1);
    NewNodeAlive(D, t);
    AliveInMembers(D, t + 1, 0, |D| + 2 + t);
    GetPairs(D, Clusters(D, t + 1), u);
  }

  /** `cluster[u] = cluster.pop(D[t][0]) + cluster.pop(D[t][1])` on the dictionary of the first t rows
      gives the dictionary of the first t + 1 rows. */
  method MergeRow(D: seq<Record>, t: nat, u: int, cluster: Dict) returns (next: Dict)
    requires t < |D| && u == |D| + 1 + t && cluster == Replay(D, t)
    ensures next == Replay(D, t + 1)
  {
    next := MergeStep(cluster, D[t].left, D[t].right, u);
    ReplayNext(D, t, t + 1, u);
  }
}
