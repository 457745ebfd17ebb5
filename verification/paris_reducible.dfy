/** Why the rows `paris` builds never merge a node at a smaller distance than the node itself was
    built at: the Paris distance `w[x] * w[v] / weight(x, v) / wtot` is reducible, so the node a
    contraction creates is no nearer to anything than the nearer of the two nodes it replaces, and
    the nearest-neighbour chain only contracts mutual nearest neighbours. */
module ParisReducibility {
  import opened Dendrograms
  import opened ParisGraph

  /** The graph a distance can be taken on: positive edge and node weights, and a positive total
      weight once there is an edge. */
  ghost predicate Weighted(E: Adjacency, w: map<int, real>, wtot: real) {
    && wtot >= 0.0 && (E != map[] ==> wtot > 0.0)
    && forall k :: k in E ==> E[k] > 0.0 && k.0 in w && k.1 in w && w[k.0] > 0.0
  }

  /** No neighbour of a is nearer to it than b. */
  ghost predicate Nearer(E: Adjacency, w: map<int, real>, wtot: real, a: int, b: int)
    requires Searchable(E, w, wtot)
  {
    (a, b) in E && forall v :: (a, v) in E ==> PairDistance(E, w, wtot, a, b) <= PairDistance(E, w, wtot, a, v)
  }

  /** Every edge at the node x created by row x - n is at least as long as that row's distance. */
  ghost predicate NoCloser(n: nat, E: Adjacency, w: map<int, real>, wtot: real, D: seq<Record>)
    requires Searchable(E, w, wtot)
  {
    forall x, v :: (x, v) in E && x >= n ==>
      x < n + |D| && AtMost(D[x - n].dist, Finite(PairDistance(E, w, wtot, x, v)))
  }

  /** Each row merges nodes built at distances no larger than its own. */
  ghost predicate RowsNoFarther(n: nat, D: seq<Record>) {
    forall t :: 0 <= t < |D| ==>
      && (n <= D[t].left < n + t ==> AtMost(D[D[t].left - n].dist, D[t].dist))
      && (n <= D[t].right < n + t ==> AtMost(D[D[t].right - n].dist, D[t].dist))
  }

  /** The chain holds ids below u, and each node on it still in the graph has the next one, when it
      is still in the graph too, as a nearest neighbour. */
  ghost predicate ChainLinked(E: Adjacency, w: map<int, real>, wtot: real, u: int, chain: seq<int>)
    requires Searchable(E, w, wtot)
  {
    && (forall i :: 0 <= i < |chain| ==> chain[i] < u)
    && forall i :: 0 <= i < |chain| - 1 && chain[i] in w && chain[i + 1] in w ==> Nearer(E, w, wtot, chain[i], chain[i + 1])
  }

  /** What the chain loop keeps besides the graph itself. */
  ghost predicate Reducible(n: nat, u: int, wtot: real, E: Adjacency, w: map<int, real>, D: seq<Record>, chain: seq<int>) {
    && Weighted(E, w, wtot) && Searchable(E, w, wtot)
    && NoCloser(n, E, w, wtot, D) && RowsNoFarther(n, D) && ChainLinked(E, w, wtot, u, chain)
  }

  // ---------------------------------------------------------------------------------------------
  // Arithmetic

  /** A bound below a quotient by positive numbers, in product form. */
  lemma BelowQuotient(m: real, num: real, p: real, W: real)
    requires p > 0.0 && W > 0.0
    ensures m <= num / p / W <==> m * p * W <= num
  {
    var q := num / p / W;
    assert q * p * W == num;
  }

  /** The mediant inequality behind reducibility: `c * (wa + wb) / (pa + pb) / W` is at least the
      smaller of `c * wa / pa / W` and `c * wb / pb / W`, a missing edge (weight 0) left out. */
  lemma Mediant(m: real, c: real, wa: real, wb: real, pa: real, pb: real, W: real)
    requires c > 0.0 && wa > 0.0 && wb > 0.0 && pa >= 0.0 && pb >= 0.0 && pa + pb > 0.0 && W > 0.0
    requires pa > 0.0 ==> m <= c * wa / pa / W
    requires pb > 0.0 ==> m <= c * wb / pb / W
    ensures m <= c * (wa + wb) / (pa + pb) / W
  {
    BelowQuotient(m, c * (wa + wb), pa + pb, W);
    if pa > 0.0 {
      BelowQuotient(m, c * wa, pa, W);
    }
    if pb > 0.0 {
      BelowQuotient(m, c * wb, pb, W);
    }
    if pa > 0.0 && pb > 0.0 {
      assert m * (pa + pb) * W == m * pa * W + m * pb * W;
    } else if pa > 0.0 {
      assert c * wa <= c * (wa + wb);
    } else {
      assert c * wb <= c * (wa + wb);
    }
  }

  /** The distance does not depend on the orientation of the edge. */
  lemma PairDistanceSymmetric(E: Adjacency, w: map<int, real>, wtot: real, a: int, b: int)
    requires Searchable(E, w, wtot) && (a, b) in E && (b, a) in E && E[(b, a)] == E[(a, b)]
    ensures PairDistance(E, w, wtot, a, b) == PairDistance(E, w, wtot, b, a)
  {
  }

  // ---------------------------------------------------------------------------------------------
  // Contraction

  /** a and b, joined by an edge of the graph on live, contracted into the fresh node u whose weight
      is the sum of theirs. */
  ghost predicate Contraction(E: Adjacency, w: map<int, real>, wtot: real, live: set<int>, a: int, b: int, u: int,
                              E': Adjacency, w': map<int, real>) {
    && GraphOn(E, live) && w.Keys == live && Weighted(E, w, wtot)
    && (a, b) in E && u !in live && Contracted(E, a, b, u, E')
    && w' == (w - {a, b})[u := w[a] + w[b]]
  }

  /** Contraction keeps the weights positive. */
  lemma ContractionWeighted(E: Adjacency, w: map<int, real>, wtot: real, live: set<int>, a: int, b: int, u: int,
                            E': Adjacency, w': map<int, real>)
    requires Contraction(E, w, wtot, live, a, b, u, E', w')
    ensures Weighted(E', w', wtot) && Searchable(E', w', wtot)
  {
    forall k | k in E' ensures E'[k] > 0.0 && k.0 in w' && k.1 in w' && w'[k.0] > 0.0 {
      if k.0 == u {
        assert (a, k.1) in E || (b, k.1) in E;
      } else if k.1 == u {
        assert (u, k.0) in E';
        assert (a, k.0) in E || (b, k.0) in E;
        assert (k.0, a) in E || (k.0, b) in E;
      } else {
        assert k in E;
      }
    }
  }

  /** One edge (u, v) of the contracted graph, whose weight is the sum of those of (a, v) and (b, v), is
      no shorter than a bound on those two edges. */
  lemma MergedEdgeFar(E: Adjacency, w: map<int, real>, wtot: real, E': Adjacency, w': map<int, real>,
                      a: int, b: int, u: int, v: int, m: real)
    requires Searchable(E, w, wtot) && Searchable(E', w', wtot)
    requires (u, v) in E' && E'[(u, v)] == Weight(E, a, v) + Weight(E, b, v)
    requires a in w && b in w && v in w && u in w' && v in w'
    requires w'[u] == w[a] + w[b] && w'[v] == w[v] && w[a] > 0.0 && w[b] > 0.0 && w[v] > 0.0 && wtot > 0.0
    requires (a, v) in E ==> m <= PairDistance(E, w, wtot, a, v)
    requires (b, v) in E ==> m <= PairDistance(E, w, wtot, b, v)
    ensures m <= PairDistance(E', w', wtot, u, v)
  {
    var c, wa, wb, pa, pb := w[v], w[a], w[b], Weight(E, a, v), Weight(E, b, v);
    if pa > 0.0 {
      DistanceOf(E, w, wtot, a, v, c, wa, pa);
    }
    if pb > 0.0 {
      DistanceOf(E, w, wtot, b, v, c, wb, pb);
    }
    Mediant(m, c, wa, wb, pa, pb, wtot);
    DistanceOf(E', w', wtot, u, v, c, wa + wb, pa + pb);
  }

  /** The distance of an edge from the weights it is computed from. */
  lemma DistanceOf(E: Adjacency, w: map<int, real>, wtot: real, x: int, v: int, c: real, wx: real, p: real)
    requires Searchable(E, w, wtot) && (x, v) in E && x in w && v in w
    requires w[v] == c && w[x] == wx && E[(x, v)] == p
    ensures PairDistance(E, w, wtot, x, v) == c * wx / p / wtot
  {
    assert w[v] * w[x] == c * wx;
  }

  /** The node u created by the contraction is no nearer to any neighbour than the nearer of a and b
      was: no edge at u is shorter than a bound on the edges at a and at b. */
  lemma NewNodeFar(E: Adjacency, w: map<int, real>, wtot: real, live: set<int>, a: int, b: int, u: int,
                   E': Adjacency, w': map<int, real>, m: real)
    requires Contraction(E, w, wtot, live, a, b, u, E', w') && Searchable(E', w', wtot)
    requires forall v :: (a, v) in E ==> m <= PairDistance(E, w, wtot, a, v)
    requires forall v :: (b, v) in E ==> m <= PairDistance(E, w, wtot, b, v)
    ensures forall v :: (u, v) in E' ==> m <= PairDistance(E', w', wtot, u, v)
  {
    forall v | (u, v) in E' ensures m <= PairDistance(E', w', wtot, u, v) {
      assert (a, v) in E || (b, v) in E;
      assert (v, a) in E || (v, b) in E;
      assert (b, a) in E;
      MergedEdgeFar(E, w, wtot, E', w', a, b, u, v, m);
    }
  }

  /** An edge (x, v) of the contracted graph away from a, b and u is an edge of the graph before, at
      the same distance. */
  lemma UntouchedEdge(E: Adjacency, w: map<int, real>, wtot: real, live: set<int>, a: int, b: int, u: int,
                      E': Adjacency, w': map<int, real>, x: int, v: int)
    requires Contraction(E, w, wtot, live, a, b, u, E', w') && Searchable(E', w', wtot)
    requires (x, v) in E' && x != u && v != u
    ensures (x, v) in E && PairDistance(E', w', wtot, x, v) == PairDistance(E, w, wtot, x, v)
  {
    assert x != a && x != b && v != a && v != b;
  }

  /** A node x other than a and b keeps a lower bound on the lengths of its edges: its edge to u is
      no shorter than the shorter of its edges to a and b, and its other edges do not change. */
  lemma OtherNodeFar(E: Adjacency, w: map<int, real>, wtot: real, live: set<int>, a: int, b: int, u: int,
                     E': Adjacency, w': map<int, real>, x: int, m: real)
    requires Contraction(E, w, wtot, live, a, b, u, E', w') && Searchable(E', w', wtot)
    requires x in live && x != a && x != b
    requires forall v :: (x, v) in E ==> m <= PairDistance(E, w, wtot, x, v)
    ensures forall v :: (x, v) in E' ==> m <= PairDistance(E', w', wtot, x, v)
  {
    forall v | (x, v) in E' ensures m <= PairDistance(E', w', wtot, x, v) {
      if v == u {
        assert (u, x) in E';
        assert (a, x) in E || (b, x) in E;
        assert (b, a) in E;
        if (a, x) in E {
          assert (x, a) in E;
          PairDistanceSymmetric(E, w, wtot, x, a);
        }
        if (b, x) in E {
          assert (x, b) in E;
          PairDistanceSymmetric(E, w, wtot, x, b);
        }
        MergedEdgeFar(E, w, wtot, E', w', a, b, u, x, m);
        PairDistanceSymmetric(E', w', wtot, u, x);
      } else {
        UntouchedEdge(E, w, wtot, live, a, b, u, E', w', x, v);
      }
    }
  }

  /** A node x left alone by the contraction keeps its edges no shorter than the row that built it. */
  lemma OtherNodeNoCloser(n: nat, E: Adjacency, w: map<int, real>, wtot: real, live: set<int>, a: int, b: int, u: int,
                          E': Adjacency, w': map<int, real>, D: seq<Record>, x: int, v: int)
    requires Contraction(E, w, wtot, live, a, b, u, E', w') && Searchable(E, w, wtot) && Searchable(E', w', wtot)
    requires forall y :: y in live ==> y < u
    requires NoCloser(n, E, w, wtot, D)
    requires (x, v) in E' && n <= x != u
    ensures x in live && x < u && AtMost(D[x - n].dist, Finite(PairDistance(E', w', wtot, x, v)))
  {
    var y := v;
    if v == u {
      assert (u, x) in E';
      y := if (a, x) in E then a else b;
      assert (y, x) in E;
    }
    assert (x, y) in E && x in live;
    NoCloserAt(n, E, w, wtot, D, x, y);
    OtherNodeFar(E, w, wtot, live, a, b, u, E', w', x, D[x - n].dist.value);
  }

  /** A node x built by the rows with an edge was built at a finite distance that bounds all its edges. */
  lemma NoCloserAt(n: nat, E: Adjacency, w: map<int, real>, wtot: real, D: seq<Record>, x: int, y: int)
    requires Searchable(E, w, wtot) && NoCloser(n, E, w, wtot, D) && (x, y) in E && x >= n
    ensures x < n + |D| && D[x - n].dist.Finite?
    ensures forall v :: (x, v) in E ==> D[x - n].dist.value <= PairDistance(E, w, wtot, x, v)
  {
    assert AtMost(D[x - n].dist, Finite(PairDistance(E, w, wtot, x, y)));
    forall v | (x, v) in E ensures D[x - n].dist.value <= PairDistance(E, w, wtot, x, v) {
      assert AtMost(D[x - n].dist, Finite(PairDistance(E, w, wtot, x, v)));
    }
  }

  /** The row of the contraction keeps the edges at every node built no shorter than the row that
      built it, when a and b are mutual nearest neighbours. */
  lemma ContractionNoCloser(n: nat, E: Adjacency, w: map<int, real>, wtot: real, live: set<int>, a: int, b: int, u: int,
                            E': Adjacency, w': map<int, real>, D: seq<Record>, D': seq<Record>)
    requires Contraction(E, w, wtot, live, a, b, u, E', w') && Searchable(E, w, wtot) && Searchable(E', w', wtot)
    requires u == n + |D| && forall x :: x in live ==> x < u
    requires NoCloser(n, E, w, wtot, D) && Nearer(E, w, wtot, a, b) && Nearer(E, w, wtot, b, a)
    requires |D'| == |D| + 1 && D'[..|D|] == D && D'[|D|].dist == Finite(PairDistance(E, w, wtot, a, b))
    ensures NoCloser(n, E', w', wtot, D')
  {
    var d := PairDistance(E, w, wtot, a, b);
    PairDistanceSymmetric(E, w, wtot, a, b);
    NewNodeFar(E, w, wtot, live, a, b, u, E', w', d);
    forall x, v | (x, v) in E' && x >= n
      ensures x < n + |D'| && AtMost(D'[x - n].dist, Finite(PairDistance(E', w', wtot, x, v)))
    {
      if x != u {
        OtherNodeNoCloser(n, E, w, wtot, live, a, b, u, E', w', D, x, v);
        assert D'[x - n] == D[x - n];
      } else {
        assert D'[x - n] == D'[|D|];
      }
    }
  }

  /** The row `[a, b, d(a, b), size]` merges nodes built no farther than d(a, b). */
  lemma ContractionRowsNoFarther(n: nat, E: Adjacency, w: map<int, real>, wtot: real, a: int, b: int,
                                 D: seq<Record>, D': seq<Record>)
    requires Searchable(E, w, wtot) && (a, b) in E && (b, a) in E && E[(b, a)] == E[(a, b)]
    requires RowsNoFarther(n, D) && NoCloser(n, E, w, wtot, D)
    requires |D'| == |D| + 1 && D'[..|D|] == D
    requires D'[|D|].left == a && D'[|D|].right == b && D'[|D|].dist == Finite(PairDistance(E, w, wtot, a, b))
    ensures RowsNoFarther(n, D')
  {
    PairDistanceSymmetric(E, w, wtot, a, b);
    forall t | 0 <= t < |D'|
      ensures && (n <= D'[t].left < n + t ==> AtMost(D'[D'[t].left - n].dist, D'[t].dist))
              && (n <= D'[t].right < n + t ==> AtMost(D'[D'[t].right - n].dist, D'[t].dist))
    {
      if t < |D| {
        assert D'[t] == D[t];
        if n <= D[t].left < n + t {
          assert D'[D[t].left - n] == D[D[t].left - n];
        }
        if n <= D[t].right < n + t {
          assert D'[D[t].right - n] == D[D[t].right - n];
        }
      } else {
        if n <= a < n + t {
          assert D'[a - n] == D[a - n];
        }
        if n <= b < n + t {
          assert D'[b - n] == D[b - n];
        }
      }
    }
  }

  /** A link of the chain between two nodes the contraction leaves alone survives it. */
  lemma LinkSurvives(E: Adjacency, w: map<int, real>, wtot: real, live: set<int>, a: int, b: int, u: int,
                     E': Adjacency, w': map<int, real>, x: int, y: int)
    requires Contraction(E, w, wtot, live, a, b, u, E', w') && Searchable(E', w', wtot)
    requires x in w' && y in w' && x != u && y != u && Nearer(E, w, wtot, x, y)
    ensures Nearer(E', w', wtot, x, y)
  {
    assert x in live && x != a && x != b && y != a && y != b;
    assert (x, y) in E';
    OtherNodeFar(E, w, wtot, live, a, b, u, E', w', x, PairDistance(E, w, wtot, x, y));
    UntouchedEdge(E, w, wtot, live, a, b, u, E', w', x, y);
  }

  /** The chain below the contracted pair stays linked, with the next id u + 1. */
  lemma ContractionChainLinked(E: Adjacency, w: map<int, real>, wtot: real, live: set<int>, a: int, b: int, u: int,
                               E': Adjacency, w': map<int, real>, rest: seq<int>)
    requires Contraction(E, w, wtot, live, a, b, u, E', w') && Searchable(E, w, wtot) && Searchable(E', w', wtot)
    requires ChainLinked(E, w, wtot, u, rest)
    ensures ChainLinked(E', w', wtot, u + 1, rest)
  {
    forall i | 0 <= i < |rest| - 1 && rest[i] in w' && rest[i + 1] in w'
      ensures Nearer(E', w', wtot, rest[i], rest[i + 1])
    {
      var x, y := rest[i], rest[i + 1];
      assert x in w && y in w && x != u && y != u;
      LinkSurvives(E, w, wtot, live, a, b, u, E', w', x, y);
    }
  }

  // ---------------------------------------------------------------------------------------------
  // The chain

  /** The chain without its top stays linked. */
  lemma ChainPrefixLinked(E: Adjacency, w: map<int, real>, wtot: real, u: int, chain: seq<int>, k: nat)
    requires Searchable(E, w, wtot) && ChainLinked(E, w, wtot, u, chain) && k <= |chain|
    ensures ChainLinked(E, w, wtot, u, chain[..k])
  {
    var pre := chain[..k];
    forall i | 0 <= i < |pre| - 1 && pre[i] in w && pre[i + 1] in w ensures Nearer(E, w, wtot, pre[i], pre[i + 1]) {
      assert pre[i] == chain[i] && pre[i + 1] == chain[i + 1];
    }
  }

  /** Pushing a nearest neighbour of the top, or a node below u that is not in the graph. */
  lemma ChainPushLinked(E: Adjacency, w: map<int, real>, wtot: real, u: int, chain: seq<int>, b: int)
    requires Searchable(E, w, wtot) && ChainLinked(E, w, wtot, u, chain) && chain != [] && b < u
    requires chain[|chain| - 1] in w && b in w ==> Nearer(E, w, wtot, chain[|chain| - 1], b)
    ensures ChainLinked(E, w, wtot, u, chain + [b])
  {
    var c := chain + [b];
    forall i | 0 <= i < |c| - 1 && c[i] in w && c[i + 1] in w ensures Nearer(E, w, wtot, c[i], c[i + 1]) {
      if i < |chain| - 1 {
        assert c[i] == chain[i] && c[i + 1] == chain[i + 1];
      }
    }
  }

  /** A node without neighbour leaving the graph keeps the distances of all the other edges. */
  lemma RemovalReducible(n: nat, u: int, wtot: real, E: Adjacency, w: map<int, real>, D: seq<Record>, a: int)
    requires Weighted(E, w, wtot) && Searchable(E, w, wtot) && NoCloser(n, E, w, wtot, D) && RowsNoFarther(n, D)
    requires forall k :: k in E ==> (k.1, k.0) in E
    requires Neighbours(E, a) == {}
    ensures Reducible(n, u, wtot, E, w - {a}, D, [])
  {
    var w' := w - {a};
    forall k | k in E ensures k.0 != a && k.1 != a && k.0 in w' && k.1 in w' && w'[k.0] == w[k.0] && w'[k.1] == w[k.1] {
      assert (k.1, k.0) in E;
    }
    assert Searchable(E, w', wtot);
    forall x, v | (x, v) in E && x >= n
      ensures x < n + |D| && AtMost(D[x - n].dist, Finite(PairDistance(E, w', wtot, x, v)))
    {
      assert PairDistance(E, w', wtot, x, v) == PairDistance(E, w, wtot, x, v);
    }
  }

  // ---------------------------------------------------------------------------------------------
  // The start

  /** The initial weight of a node is never negative, and is positive at a node with an edge. */
  lemma {:induction false} IncidentPositive(n: nat, edges: seq<Edge>, x: int, y: int)
    requires ValidGraph(n, edges)
    ensures Incident(edges, x) >= 0.0
    ensures (x, y) in EdgeMap(edges) ==> Incident(edges, x) > 0.0
  {
    if edges != [] {
      var front, e := edges[..|edges| - 1], edges[|edges| - 1];
      ValidFront(n, edges);
      IncidentPositive(n, front, x, y);
      assert EndWeight(e, x) >= 0.0;
    }
  }

  /** The graph of the edge list with its initial weights, nothing built and an empty chain. */
  lemma StartReducible(n: nat, edges: seq<Edge>, w: map<int, real>, wtot: real)
    requires ValidGraph(n, edges) && w.Keys == Upto(n) && wtot == 2.0 * Total(edges)
    requires forall x :: 0 <= x < n ==> w[x] == Incident(edges, x)
    ensures Reducible(n, n, wtot, EdgeMap(edges), w, [], [])
  {
    var E := EdgeMap(edges);
    EdgeMapIsGraph(n, edges);
    TotalPositive(n, edges);
    forall k | k in E ensures w[k.0] > 0.0 {
      IncidentPositive(n, edges, k.0, k.1);
    }
    if E != map[] {
      assert edges != [];
    }
  }
}
