/** Sequence helpers shared by the dendrogram model: integer ranges, distinctness, flattening,
    filtering out one id, and the counting facts the partition proofs rest on. */
module Collections {

  /** A value, or the exception the source raises instead. */
  datatype Result<T> = Success(value: T) | Failure(error: string)

  /** `list(range(lo, hi))` */
  function Range(lo: int, hi: int): (r: seq<int>)
    ensures |r| == if lo <= hi then hi - lo else 0
    ensures forall i :: 0 <= i < |r| ==> r[i] == lo + i
    decreases hi - lo
  {
    if lo >= hi then [] else [lo] + Range(lo + 1, hi)
  }

  predicate Distinct<T(==)>(s: seq<T>) {
    forall i, j :: 0 <= i < j < |s| ==> s[i] != s[j]
  }

  /** A set other than the empty set has an element. */
  lemma NonEmpty(s: set<int>)
    requires s != {}
    ensures exists x :: x in s
  {
    if forall x :: x !in s {
      assert false;
    }
  }

  /** Concatenation of a list of lists, in order. */
  function Flatten<T>(ss: seq<seq<T>>): seq<T> {
    if ss == [] then [] else ss[0] + Flatten(ss[1..])
  }

  lemma {:induction false} FlattenAppend<T>(ss: seq<seq<T>>, s: seq<T>)
    ensures Flatten(ss + [s]) == Flatten(ss) + s
  {
    if ss == [] {
      assert [s][1..] == [];
    } else {
      assert (ss + [s])[1..] == ss[1..] + [s];
      FlattenAppend(ss[1..], s);
    }
  }

  lemma {:induction false} FlattenConcat<T>(a: seq<seq<T>>, b: seq<seq<T>>)
    ensures Flatten(a + b) == Flatten(a) + Flatten(b)
  {
    if a == [] {
      assert a + b == b;
    } else {
      assert (a + b)[0] == a[0] && (a + b)[1..] == a[1..] + b;
      FlattenConcat(a[1..], b);
      assert Flatten(a + b) == a[0] + (Flatten(a[1..]) + Flatten(b));
    }
  }

  /** Each list of ss contributes its elements to the concatenation. */
  lemma {:induction false} FlattenHolds<T>(ss: seq<seq<T>>, i: int)
    requires 0 <= i < |ss|
    ensures multiset(ss[i]) <= multiset(Flatten(ss))
  {
    if i > 0 {
      FlattenHolds(ss[1..], i - 1);
    }
  }

  /** Two different lists of ss contribute their elements separately to the concatenation. */
  lemma {:induction false} FlattenHoldsTwo<T>(ss: seq<seq<T>>, i: int, j: int)
    requires 0 <= i < j < |ss|
    ensures multiset(ss[i]) + multiset(ss[j]) <= multiset(Flatten(ss))
  {
    if i == 0 {
      FlattenHolds(ss[1..], j - 1);
    } else {
      FlattenHoldsTwo(ss[1..], i - 1, j - 1);
    }
  }

  /** An element occurs at most once in a list without repetitions. */
  lemma {:induction false} DistinctCount<T>(xs: seq<T>, z: T)
    requires Distinct(xs)
    ensures multiset(xs)[z] <= 1
  {
    if xs != [] {
      DistinctTail(xs);
      DistinctCount(xs[1..], z);
      assert xs == [xs[0]] + xs[1..];
    }
  }

  /** The list without the occurrences of x (the keys left once the dictionary entry x is popped). */
  function RemoveId(xs: seq<int>, x: int): (r: seq<int>)
    ensures forall y :: y in r <==> y in xs && y != x
    ensures |r| <= |xs|
  {
    if xs == [] then []
    else (if xs[0] == x then [] else [xs[0]]) + RemoveId(xs[1..], x)
  }

  /** The tail of a distinct list is distinct and does not hold its head. */
  lemma DistinctTail<T>(xs: seq<T>)
    requires Distinct(xs) && xs != []
    ensures Distinct(xs[1..]) && xs[0] !in xs[1..]
  {
    forall i, j | 0 <= i < j < |xs[1..]| ensures xs[1..][i] != xs[1..][j] {
      assert xs[1..][i] == xs[i + 1] && xs[1..][j] == xs[j + 1];
    }
    forall k | 0 <= k < |xs[1..]| ensures xs[1..][k] != xs[0] { assert xs[1..][k] == xs[k + 1]; }
  }

  lemma {:induction false} RemoveIdDistinct(xs: seq<int>, x: int)
    requires Distinct(xs)
    ensures Distinct(RemoveId(xs, x))
    ensures x in xs ==> |RemoveId(xs, x)| == |xs| - 1
    ensures x !in xs ==> RemoveId(xs, x) == xs
  {
    if xs != [] {
      DistinctTail(xs);
      RemoveIdDistinct(xs[1..], x);
      var rest := RemoveId(xs[1..], x);
      assert RemoveId(xs, x) == (if xs[0] == x then [] else [xs[0]]) + rest;
      if xs[0] == x {
        assert x !in xs[1..];
      } else {
        assert xs[0] !in rest;
        forall i, j | 0 <= i < j < |[xs[0]] + rest| ensures ([xs[0]] + rest)[i] != ([xs[0]] + rest)[j] {
          if i == 0 { assert ([xs[0]] + rest)[j] == rest[j - 1]; assert rest[j - 1] in rest; }
          else { assert ([xs[0]] + rest)[i] == rest[i - 1] && ([xs[0]] + rest)[j] == rest[j - 1]; }
        }
        assert x in xs ==> x in xs[1..] by {
          if x in xs { var k :| 0 <= k < |xs| && xs[k] == x; assert k != 0; assert xs[1..][k - 1] == x; }
        }
        if x !in xs { assert xs == [xs[0]] + xs[1..]; }
      }
    }
  }

  lemma {:induction false} RemoveIdConcat(a: seq<int>, b: seq<int>, x: int)
    ensures RemoveId(a + b, x) == RemoveId(a, x) + RemoveId(b, x)
  {
    if a != [] {
      assert (a + b)[0] == a[0];
      assert (a + b)[1..] == a[1..] + b;
      RemoveIdConcat(a[1..], b, x);
    } else {
      assert a + b == b;
    }
  }

  /** Removing two different present ids: the second is still there after the first goes, and an
      absent id stays absent. */
  lemma RemoveTwice(xs: seq<int>, l: int, r: int, u: int)
    requires l in xs && r in xs && l != r && u !in xs
    ensures r in RemoveId(xs, l) && u !in RemoveId(RemoveId(xs, l), r)
  {
  }

  /** A distinct list of m ids, all below m, holds every id below m (pigeonhole). */
  lemma DistinctBoundedCovers(xs: seq<int>, m: nat)
    requires |xs| == m && Distinct(xs)
    requires forall i :: 0 <= i < |xs| ==> 0 <= xs[i] < m
    ensures forall y :: 0 <= y < m ==> y in xs
  {
    var present := set i | 0 <= i < |xs| :: xs[i];
    var ids := Range(0, m);
    var all := set i | 0 <= i < m :: ids[i];
    IndexImageCard(xs);
    IndexImageCard(ids);
    assert present <= all by {
      forall y | y in present ensures y in all { assert ids[y] == y; }
    }
    SubsetSameCard(present, all);
    forall y | 0 <= y < m ensures y in xs {
      assert ids[y] == y && y in all;
      assert y in present;
    }
  }

  lemma {:induction false} IndexImageCard(xs: seq<int>)
    requires Distinct(xs)
    ensures |set i | 0 <= i < |xs| :: xs[i]| == |xs|
  {
    if xs != [] {
      var last := |xs| - 1;
      var init := xs[..last];
      assert Distinct(init) by {
        forall i, j | 0 <= i < j < |init| ensures init[i] != init[j] { assert init[i] == xs[i] && init[j] == xs[j]; }
      }
      IndexImageCard(init);
      var a := set i | 0 <= i < |init| :: init[i];
      var b := set i | 0 <= i < |xs| :: xs[i];
      assert b == a + {xs[last]} by {
        forall y | y in b ensures y in a + {xs[last]} {
          var i :| 0 <= i < |xs| && xs[i] == y;
          if i < last { assert init[i] == y; }
        }
        forall y | y in a ensures y in b {
          var i :| 0 <= i < |init| && init[i] == y;
          assert xs[i] == y;
        }
      }
      assert xs[last] !in a;
    }
  }

  lemma SubsetSameCard<T>(a: set<T>, b: set<T>)
    requires a <= b && |a| == |b|
    ensures a == b
  {
    if a != b {
      var y :| y in b && y !in a;
      assert a <= b - {y};
      assert |b - {y}| == |b| - 1;
      SubsetCard(a, b - {y});
    }
  }

  lemma {:induction false} SubsetCard<T>(a: set<T>, b: set<T>)
    requires a <= b
    ensures |a| <= |b|
    decreases |a|
  {
    if a != {} {
      var y :| y in a;
      SubsetCard(a - {y}, b - {y});
    }
  }

  /** Sum of a list of reals. */
  function Sum(s: seq<real>): real {
    if s == [] then 0.0 else s[0] + Sum(s[1..])
  }
}
