/** What the scans over a list of scores select: the running-maximum loops of the `best_*` slicers and
    `np.argmax` of the naive baselines. */
module Selection {

  /** The outcome of `for k: if s[k] > best_score: best, best_score = k, s[k]` started from
      `(dflt, 0.)`: the first position of the largest score when that score is positive, and the
      starting pair otherwise. */
  ghost predicate FirstStrictMax(s: seq<real>, dflt: int, i: int, v: real) {
    && 0.0 <= v
    && (forall k :: 0 <= k < |s| ==> s[k] <= v)
    && (v > 0.0 ==> 0 <= i < |s| && s[i] == v && forall k :: 0 <= k < i ==> s[k] < v)
    && (v == 0.0 ==> i == dflt)
  }

  /** One more step of the scan. */
  lemma FirstStrictMaxExtend(s: seq<real>, dflt: int, i: int, v: real, x: real)
    requires FirstStrictMax(s, dflt, i, v)
    ensures FirstStrictMax(s + [x], dflt, if x > v then |s| else i, if x > v then x else v)
  {
    var s' := s + [x];
    assert forall k :: 0 <= k < |s| ==> s'[k] == s[k];
  }

  /** Step t of the scan over s, stated on prefixes. */
  lemma ScanStep(s: seq<real>, dflt: int, t: nat, i: int, v: real)
    requires t < |s| && FirstStrictMax(s[..t], dflt, i, v)
    ensures FirstStrictMax(s[..t + 1], dflt, if s[t] > v then t else i, if s[t] > v then s[t] else v)
  {
    FirstStrictMaxExtend(s[..t], dflt, i, v, s[t]);
    assert s[..t + 1] == s[..t] + [s[t]];
  }

  /** The scan has a single outcome. */
  lemma FirstStrictMaxUnique(s: seq<real>, dflt: int, i: int, v: real, i2: int, v2: real)
    requires FirstStrictMax(s, dflt, i, v) && FirstStrictMax(s, dflt, i2, v2)
    ensures i == i2 && v == v2
  {
    if v > 0.0 && v2 > 0.0 {
      assert s[i] <= v2 && s[i2] <= v;
    }
  }

  /** `np.argmax(s)`: the first position holding the largest value. */
  function ArgMax(s: seq<real>): (i: nat)
    requires |s| > 0
    ensures i < |s|
    ensures forall k :: 0 <= k < |s| ==> s[k] <= s[i]
    ensures forall k :: 0 <= k < i ==> s[k] < s[i]
  {
    if |s| == 1 then 0
    else
      var j := ArgMax(s[..|s| - 1]);
      assert forall k :: 0 <= k < |s| - 1 ==> s[..|s| - 1][k] == s[k];
      if s[|s| - 1] > s[j] then |s| - 1 else j
  }
}
