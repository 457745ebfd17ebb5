/** The dendrogram: an (n-1) x 4 array whose row t merges two clusters into the new cluster n+t.
    Leaves are the ids 0..n-1, the node created by row t is n+t, and the root is 2n-2. */
module Dendrograms {
  import opened Collections

  /** A merge distance: a float of the dendrogram array, or the `float("inf")` of a synthetic join. */
  datatype Dist = Finite(value: real) | Inf

  /** `a < b` as floats compare: inf is above every finite value and not below itself. */
  predicate Less(a: Dist, b: Dist) {
    match a
    case Inf => false
    case Finite(x) => b.Inf? || x < b.value
  }

  /** `a <= b` */
  predicate AtMost(a: Dist, b: Dist) {
    !Less(b, a)
  }

  /** `d > 0.` */
  predicate Positive(d: Dist) {
    Less(Finite(0.0), d)
  }

  lemma LessIsStrictTotalOrder(a: Dist, b: Dist, c: Dist)
    ensures !Less(a, a)
    ensures Less(a, b) && Less(b, c) ==> Less(a, c)
    ensures a == b || Less(a, b) || Less(b, a)
  {
  }

  /** One row `[left, right, distance, size]`. */
  datatype Record = Record(left: int, right: int, dist: Dist, size: int)

  /** `n_nodes = np.shape(D)[0] + 1` */
  function LeafCount(D: seq<Record>): nat {
    |D| + 1
  }

  /** Id of the root, the node created by the last row. */
  function Root(D: seq<Record>): nat {
    2 * |D|
  }

  predicate Uses(r: Record, x: int) {
    r.left == x || r.right == x
  }

  /** Row t names only ids that exist before it: leaves and the nodes of rows 0..t-1. */
  ghost predicate Bounded(D: seq<Record>) {
    forall t :: 0 <= t < |D| ==> 0 <= D[t].left < |D| + 1 + t && 0 <= D[t].right < |D| + 1 + t
  }

  /** No id is merged twice: not twice in one row, and not in two rows. */
  ghost predicate DistinctOperands(D: seq<Record>) {
    && (forall t :: 0 <= t < |D| ==> D[t].left != D[t].right)
    && (forall s, t :: 0 <= s < t < |D| ==> !Uses(D[t], D[s].left) && !Uses(D[t], D[s].right))
  }

  /** A dendrogram as the slicers expect it: no forward reference and no id merged twice. */
  ghost predicate WellFormed(D: seq<Record>) {
    Bounded(D) && DistinctOperands(D)
  }

  /** x was merged away by one of the rows 0..t-1. */
  predicate Consumed(D: seq<Record>, t: nat, x: int)
    requires t <= |D|
  {
    t > 0 && (Uses(D[t - 1], x) || Consumed(D, t - 1, x))
  }

  /** x is a cluster of the partition reached after the first t merges. */
  predicate Alive(D: seq<Record>, t: nat, x: int)
    requires t <= |D|
  {
    0 <= x < |D| + 1 + t && !Consumed(D, t, x)
  }

  lemma {:induction false} ConsumedIff(D: seq<Record>, t: nat, x: int)
    requires t <= |D|
    ensures Consumed(D, t, x) <==> exists s :: 0 <= s < t && Uses(D[s], x)
  {
    if t > 0 {
      ConsumedIff(D, t - 1, x);
    }
  }

  /** The two operands of row t are clusters of the partition reached after t merges. */
  lemma OperandsAlive(D: seq<Record>, t: nat)
    requires WellFormed(D) && t < |D|
    ensures Alive(D, t, D[t].left) && Alive(D, t, D[t].right)
    ensures D[t].left != D[t].right
  {
    ConsumedIff(D, t, D[t].left);
    ConsumedIff(D, t, D[t].right);
  }

  /** A row only merges ids created before it, so the node it creates is new. */
  lemma NewNodeAlive(D: seq<Record>, t: nat)
    requires Bounded(D) && t < |D|
    ensures Alive(D, t + 1, |D| + 1 + t)
    ensures !Alive(D, t, |D| + 1 + t)
  {
    ConsumedIff(D, t + 1, |D| + 1 + t);
  }

  /** No row merges the root. */
  lemma RootNeverConsumed(D: seq<Record>, t: nat)
    requires Bounded(D) && t <= |D|
    ensures !Consumed(D, t, Root(D))
  {
    ConsumedIff(D, t, Root(D));
  }

  /** Leaf ids under node x, left subtree first: `cluster[x]` once x has been built. */
  function LeavesUnder(D: seq<Record>, x: int): seq<int>
    requires Bounded(D) && 0 <= x <= Root(D)
    decreases x
  {
    if x < |D| + 1 then [x]
    else LeavesUnder(D, D[x - |D| - 1].left) + LeavesUnder(D, D[x - |D| - 1].right)
  }

  lemma {:induction false} LeavesUnderAreLeaves(D: seq<Record>, x: int)
    requires Bounded(D) && 0 <= x <= Root(D)
    ensures |LeavesUnder(D, x)| > 0
    ensures forall y :: y in LeavesUnder(D, x) ==> 0 <= y < |D| + 1 && y <= x
    decreases x
  {
    if x >= |D| + 1 {
      LeavesUnderAreLeaves(D, D[x - |D| - 1].left);
      LeavesUnderAreLeaves(D, D[x - |D| - 1].right);
    }
  }

  /** The size column of row t is the number of leaves under the node it creates. */
  ghost predicate CountsLeaves(D: seq<Record>, t: int)
    requires Bounded(D) && 0 <= t < |D|
  {
    D[t].size == |LeavesUnder(D, |D| + 1 + t)|
  }

  /** The size column of every row is the number of leaves under the node it creates. */
  ghost predicate SizesCountLeaves(D: seq<Record>)
    requires Bounded(D)
  {
    forall t :: 0 <= t < |D| ==> CountsLeaves(D, t)
  }

  /** Operands in the order the slicers absorb them: left then right of row 0, then of row 1, ... */
  function Absorbed(D: seq<Record>, k: nat): (r: seq<int>)
    requires k <= |D|
    ensures |r| == 2 * k
    ensures forall i :: 0 <= i < k ==> r[2 * i] == D[i].left && r[2 * i + 1] == D[i].right
  {
    if k == 0 then [] else Absorbed(D, k - 1) + [D[k - 1].left, D[k - 1].right]
  }

  /** Entry i of the absorbed operands is an operand of row i / 2: the left one when i is even. */
  lemma AbsorbedEntry(D: seq<Record>, i: int)
    requires 0 <= i < 2 * |D|
    ensures 0 <= i / 2 < |D| && i == 2 * (i / 2) + i % 2 && 0 <= i % 2 <= 1
    ensures Absorbed(D, |D|)[i] == if i % 2 == 0 then D[i / 2].left else D[i / 2].right
  {
    var s := i / 2;
    if i % 2 == 0 {
      assert i == 2 * s;
    } else {
      assert i == 2 * s + 1;
    }
  }

  /** Every id other than the root, 0..2n-3, is merged exactly once. */
  lemma EveryNonRootIdAbsorbedOnce(D: seq<Record>)
    requires WellFormed(D)
    ensures Distinct(Absorbed(D, |D|))
    ensures forall x :: x in Absorbed(D, |D|) <==> 0 <= x < Root(D)
  {
    var xs := Absorbed(D, |D|);
    forall i, j | 0 <= i < j < |xs| ensures xs[i] != xs[j] {
      AbsorbedEntry(D, i);
      AbsorbedEntry(D, j);
      var s, t := i / 2, j / 2;
      if s < t {
        assert !Uses(D[t], D[s].left) && !Uses(D[t], D[s].right);
      } else {
        assert s == t && i % 2 == 0 && j % 2 == 1;
        assert D[s].left != D[s].right;
      }
    }
    forall i | 0 <= i < |xs| ensures 0 <= xs[i] < Root(D) {
      AbsorbedEntry(D, i);
      var s := i / 2;
      assert 0 <= D[s].left < |D| + 1 + s && 0 <= D[s].right < |D| + 1 + s;
    }
    DistinctBoundedCovers(xs, Root(D));
  }
}
