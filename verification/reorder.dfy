/** `reorder_dendrogram`: the rows of a dendrogram sorted by distance, equal distances in row order,
    with every internal id renamed after the new position of the row that creates it. */
module Reordering {
  import opened Collections
  import opened Dendrograms
  import opened Sorting

  /** The distance column `D[:, 2]`. */
  function Distances(D: seq<Record>): (keys: seq<Dist>)
    ensures |keys| == |D| && forall t :: 0 <= t < |D| ==> keys[t] == D[t].dist
  {
    seq(|D|, t requires 0 <= t < |D| => D[t].dist)
  }

  /** index lists each of 0..m-1 once. */
  ghost predicate Shuffle(index: seq<int>) {
    && (forall t :: 0 <= t < |index| ==> 0 <= index[t] < |index|)
    && Distinct(index)
    && (forall p :: 0 <= p < |index| ==> p in index)
  }

  /** `index = np.lexsort((range(n - 1), D[:, 2]))`: the rows by distance, then by row number. */
  function SortOrder(D: seq<Record>): (index: seq<int>)
    ensures |index| == |D| && Shuffle(index)
    ensures forall i, j :: 0 <= i < j < |D| ==> Before(Distances(D), index[i], index[j])
  {
    ArgSortIsStableSort(Distances(D));
    ArgSort(Distances(D))
  }

  /** Where p sits in index. */
  function Position(index: seq<int>, p: int): (i: nat)
    requires p in index
    ensures i < |index| && index[i] == p
  {
    if index[0] == p then 0 else Position(index[1..], p) + 1
  }

  /** `n_index[x]`: each leaf keeps its id and the node of old row `index[t]` becomes the node of
      row t. */
  function NewId(n: nat, index: seq<int>, x: int): (y: int)
    requires Shuffle(index) && 0 <= x < n + |index|
    ensures x < n ==> y == x
    ensures x >= n ==> n <= y < n + |index| && index[y - n] == x - n
  {
    if x < n then x else n + Position(index, x - n)
  }

  /** The node of old row `index[t]` is renamed to that of row t. */
  lemma NewIdOfRow(n: nat, index: seq<int>, t: int)
    requires Shuffle(index) && 0 <= t < |index|
    ensures NewId(n, index, n + index[t]) == n + t
  {
    var y := NewId(n, index, n + index[t]);
    assert index[y - n] == index[t];
  }

  /** Renaming is one-to-one on the node ids. */
  lemma NewIdInjective(n: nat, index: seq<int>, x: int, y: int)
    requires Shuffle(index) && 0 <= x < n + |index| && 0 <= y < n + |index|
    ensures NewId(n, index, x) == NewId(n, index, y) ==> x == y
  {
  }

  /** Every operand names a node of the dendrogram, so that `n_index` has it. */
  ghost predicate NamesNodes(D: seq<Record>) {
    forall t :: 0 <= t < |D| ==> 0 <= D[t].left <= Root(D) && 0 <= D[t].right <= Root(D)
  }

  /** Row t of the result before the sort: old row t with both operands renamed. */
  function Renamed(D: seq<Record>, index: seq<int>): (rows: seq<Record>)
    requires NamesNodes(D) && |index| == |D| && Shuffle(index)
    ensures |rows| == |D|
    ensures forall t :: 0 <= t < |D| ==>
              rows[t] == Record(NewId(|D| + 1, index, D[t].left), NewId(|D| + 1, index, D[t].right), D[t].dist, D[t].size)
  {
    seq(|D|, t requires 0 <= t < |D| =>
      Record(NewId(|D| + 1, index, D[t].left), NewId(|D| + 1, index, D[t].right), D[t].dist, D[t].size))
  }

  /** `reorder_dendrogram`: row t of the result is old row `index[t]` with its operands renamed. */
  function Reorder(D: seq<Record>): (r: seq<Record>)
    requires NamesNodes(D)
    ensures |r| == |D|
    ensures forall t :: 0 <= t < |D| ==> r[t] == Renamed(D, SortOrder(D))[SortOrder(D)[t]]
  {
    var index := SortOrder(D);
    Permute(Renamed(D, index), index)
  }

  /** The result's distances do not decrease, and rows of equal distance keep their old order. */
  lemma ReorderSorted(D: seq<Record>)
    requires NamesNodes(D)
    ensures forall i, j :: 0 <= i < j < |D| ==> AtMost(Reorder(D)[i].dist, Reorder(D)[j].dist)
    ensures forall i, j :: 0 <= i < j < |D| && Reorder(D)[i].dist == Reorder(D)[j].dist ==> SortOrder(D)[i] < SortOrder(D)[j]
  {
    var r, index, keys := Reorder(D), SortOrder(D), Distances(D);
    forall i, j | 0 <= i < j < |D| ensures AtMost(r[i].dist, r[j].dist) {
      assert Before(keys, index[i], index[j]);
      LessIsStrictTotalOrder(keys[index[i]], keys[index[j]], keys[index[i]]);
    }
  }

  /** The result holds the same rows, each once, up to renaming. */
  lemma ReorderIsPermutationOfRows(D: seq<Record>, t: int)
    requires NamesNodes(D) && 0 <= t < |D|
    ensures exists i :: 0 <= i < |D| && SortOrder(D)[i] == t
              && Reorder(D)[i].dist == D[t].dist && Reorder(D)[i].size == D[t].size
  {
    assert t in SortOrder(D);
  }

  /** A row moves with its size column, and its node with its leaves, so the sizes still count
      the leaves after the reordering. */
  lemma ReorderKeepsSizes(D: seq<Record>)
    requires WellFormed(D) && ChildrenNoFarther(D) && SizesCountLeaves(D)
    ensures NamesNodes(D) && WellFormed(Reorder(D)) && SizesCountLeaves(Reorder(D))
  {
    ReorderWellFormed(D);
    forall k | 0 <= k < |D| ensures CountsLeaves(Reorder(D), k) {
      ReorderedSize(D, k);
    }
  }

  /** Row k of the result is old row `index[k]`, whose node is renamed n + k. */
  lemma ReorderedSize(D: seq<Record>, k: int)
    requires WellFormed(D) && ChildrenNoFarther(D) && SizesCountLeaves(D) && 0 <= k < |D|
    ensures NamesNodes(D) && WellFormed(Reorder(D)) && CountsLeaves(Reorder(D), k)
  {
    WellFormedNamesNodes(D);
    var t := MovedRow(D, k);
    assert CountsLeaves(D, t);
    ReorderKeepsLeaves(D, |D| + 1 + t);
  }

  /** Row k of the result carries the size column of an old row t, whose node is renamed n + k. */
  lemma MovedRow(D: seq<Record>, k: int) returns (t: int)
    requires NamesNodes(D) && 0 <= k < |D|
    ensures 0 <= t < |D| && Reorder(D)[k].size == D[t].size
    ensures NewId(|D| + 1, SortOrder(D), |D| + 1 + t) == |D| + 1 + k
  {
    var index := SortOrder(D);
    t := index[k];
    assert Reorder(D)[k] == Renamed(D, index)[t];
    NewIdOfRow(|D| + 1, index, k);
  }

  /** Rows already in non-decreasing distance order come back unchanged. */
  lemma ReorderOfSorted(D: seq<Record>)
    requires NamesNodes(D)
    requires forall s, t :: 0 <= s < t < |D| ==> AtMost(D[s].dist, D[t].dist)
    ensures Reorder(D) == D
  {
    var keys := Distances(D);
    ArgSortOfSorted(keys, |keys|);
    var n, index := |D| + 1, SortOrder(D);
    assert index == Range(0, |D|);
    var r, renamed := Reorder(D), Renamed(D, index);
    forall t | 0 <= t < |D| ensures r[t] == D[t] {
      assert index[t] == t;
      IdentityRenaming(n, index, D[t].left);
      IdentityRenaming(n, index, D[t].right);
    }
  }

  /** Under the identity order every id keeps its name. */
  lemma IdentityRenaming(n: nat, index: seq<int>, x: int)
    requires Shuffle(index) && index == Range(0, |index|) && 0 <= x < n + |index|
    ensures NewId(n, index, x) == x
  {
    if x >= n {
      NewIdOfRow(n, index, x - n);
    }
  }

  // ---------------------------------------------------------------------------------------------
  // The hierarchy survives the reordering

  /** Every internal operand was built at a distance no larger than that of the row merging it, as the
      nearest-neighbour chain produces them. */
  ghost predicate ChildrenNoFarther(D: seq<Record>)
    requires Bounded(D)
  {
    forall t :: 0 <= t < |D| ==>
      && (D[t].left > |D| ==> AtMost(D[D[t].left - |D| - 1].dist, D[t].dist))
      && (D[t].right > |D| ==> AtMost(D[D[t].right - |D| - 1].dist, D[t].dist))
  }

  /** When every child is no farther than its parent, the renaming sends an operand of the row placed at i to a node
      built before that position. */
  lemma RenamedOperandBounded(D: seq<Record>, i: int, x: int)
    requires Bounded(D) && ChildrenNoFarther(D) && 0 <= i < |D|
    requires x == D[SortOrder(D)[i]].left || x == D[SortOrder(D)[i]].right
    ensures 0 <= x <= Root(D)
    ensures 0 <= NewId(|D| + 1, SortOrder(D), x) < |D| + 1 + i
  {
    var n, index := |D| + 1, SortOrder(D);
    var c := index[i];
    assert 0 <= c < |D|;
    assert 0 <= x < n + c by {
      assert 0 <= D[c].left < |D| + 1 + c && 0 <= D[c].right < |D| + 1 + c;
    }
    if x >= n {
      var keys := Distances(D);
      assert AtMost(keys[x - n], keys[c]);
      EarlierRowPlacedEarlier(n, keys, index, i, x);
    }
  }

  /** In a stable order of the rows by key, a row numbered below row index[i] and with a key no larger
      is placed before position i: the node of that row is renamed below n + i. */
  lemma EarlierRowPlacedEarlier(n: nat, keys: seq<Dist>, index: seq<int>, i: int, x: int)
    requires Shuffle(index) && |index| == |keys|
    requires forall a, b :: 0 <= a < b < |index| ==> Before(keys, index[a], index[b])
    requires 0 <= i < |index| && n <= x < n + index[i] && AtMost(keys[x - n], keys[index[i]])
    ensures NewId(n, index, x) < n + i
  {
    var y := NewId(n, index, x);
    var p, c := x - n, index[i];
    LessIsStrictTotalOrder(keys[p], keys[c], keys[p]);
    assert index[y - n] == p && p != c;
  }

  /** Every operand of a well-formed dendrogram names one of its nodes. */
  lemma WellFormedNamesNodes(D: seq<Record>)
    requires WellFormed(D)
    ensures NamesNodes(D)
  {
  }

  /** When every node is built no farther than its parent, the reordered dendrogram is well formed:
      no row refers to a node built after it and no id is merged twice. */
  lemma ReorderWellFormed(D: seq<Record>)
    requires WellFormed(D) && ChildrenNoFarther(D)
    ensures NamesNodes(D) && WellFormed(Reorder(D))
  {
    WellFormedNamesNodes(D);
    var n, index := |D| + 1, SortOrder(D);
    var r := Reorder(D);
    forall i | 0 <= i < |D| ensures 0 <= r[i].left < n + i && 0 <= r[i].right < n + i {
      RenamedOperandBounded(D, i, D[index[i]].left);
      RenamedOperandBounded(D, i, D[index[i]].right);
    }
    forall i | 0 <= i < |D| ensures r[i].left != r[i].right {
      NewIdInjective(n, index, D[index[i]].left, D[index[i]].right);
    }
    forall i, j | 0 <= i < j < |D| ensures !Uses(r[j], r[i].left) && !Uses(r[j], r[i].right) {
      var a, b := D[index[i]], D[index[j]];
      assert index[i] != index[j];
      NewIdInjective(n, index, a.left, b.left);
      NewIdInjective(n, index, a.left, b.right);
      NewIdInjective(n, index, a.right, b.left);
      NewIdInjective(n, index, a.right, b.right);
      if index[i] < index[j] {
        assert !Uses(b, a.left) && !Uses(b, a.right);
      } else {
        assert !Uses(a, b.left) && !Uses(a, b.right);
      }
    }
  }

  /** The reordering keeps the hierarchy: the renamed node of x has the leaves x had. */
  lemma {:induction false} ReorderKeepsLeaves(D: seq<Record>, x: int)
    requires WellFormed(D) && ChildrenNoFarther(D) && 0 <= x <= Root(D)
    ensures NamesNodes(D) && WellFormed(Reorder(D))
    ensures LeavesUnder(Reorder(D), NewId(|D| + 1, SortOrder(D), x)) == LeavesUnder(D, x)
    decreases x
  {
    ReorderWellFormed(D);
    var n, index, r := |D| + 1, SortOrder(D), Reorder(D);
    if x >= n {
      var c := x - n;
      var i := NewId(n, index, x) - n;
      assert index[i] == c && r[i] == Renamed(D, index)[c];
      ReorderKeepsLeaves(D, D[c].left);
      ReorderKeepsLeaves(D, D[c].right);
    }
  }
}
