/** `paris`: the nearest-neighbour chain over the graph, the contraction of mutual nearest
    neighbours into fresh nodes, the collection of the nodes left without a neighbour as finished
    components, their joining by rows at infinite distance, and the final reordering. */
module ParisBuilder {
  import opened Collections
  import opened Dendrograms
  import opened ParisGraph
  import opened ParisReducibility
  import opened Reordering

  /** A finished component `(a, s[a])`: its node id and its number of leaves. */
  type Component = (int, int)

  /** The node ids of the graph, as a set. */
  function Live(nodes: seq<int>): (r: set<int>)
    ensures forall x :: x in r <==> x in nodes
  {
    set x | x in nodes
  }

  /** `sum(s[x] for x in nodes)` */
  function SizeSum(nodes: seq<int>, s: map<int, int>): int
    requires forall i :: 0 <= i < |nodes| ==> nodes[i] in s
  {
    if nodes == [] then 0 else s[nodes[0]] + SizeSum(nodes[1..], s)
  }

  lemma LiveAppend(nodes: seq<int>, u: int)
    ensures Live(nodes + [u]) == Live(nodes) + {u}
  {
    forall x ensures x in Live(nodes + [u]) <==> x in Live(nodes) + {u} {
      assert x in nodes + [u] <==> x in nodes || x == u;
    }
  }

  lemma LiveRemove(nodes: seq<int>, a: int)
    ensures Live(RemoveId(nodes, a)) == Live(nodes) - {a}
  {
    forall x ensures x in Live(RemoveId(nodes, a)) <==> x in Live(nodes) - {a} {
      assert x in RemoveId(nodes, a) <==> x in nodes && x != a;
    }
  }

  /** The sizes of the finished components. */
  function ComponentSum(cc: seq<Component>): int {
    if cc == [] then 0 else ComponentSum(cc[..|cc| - 1]) + cc[|cc| - 1].1
  }

  /** The live nodes are distinct ids below the next id u. */
  ghost predicate NodesBelow(u: int, nodes: seq<int>) {
    Distinct(nodes) && forall x :: x in nodes ==> 0 <= x < u
  }

  /** The graph, the weights and the sizes are all on the live nodes, and the total weight is not 0
      while an edge is left. */
  ghost predicate Carried(wtot: real, E: Adjacency, w: map<int, real>, s: map<int, int>, nodes: seq<int>) {
    && GraphOn(E, Live(nodes))
    && w.Keys == Live(nodes) && s.Keys == Live(nodes)
    && (E != map[] ==> wtot != 0.0)
  }

  /** Row t merges only ids below n + t, the id it creates, and no id twice. */
  ghost predicate RowsBuilt(n: nat, D: seq<Record>) {
    && (forall t :: 0 <= t < |D| ==> 0 <= D[t].left < n + t && 0 <= D[t].right < n + t)
    && DistinctOperands(D)
  }

  /** The rows never merged a live node or a component, and the components are distinct ids below
      u, none of them live. */
  ghost predicate Retired(u: int, D: seq<Record>, nodes: seq<int>, cc: seq<Component>) {
    && (forall t :: 0 <= t < |D| ==> D[t].left !in nodes && D[t].right !in nodes)
    && (forall t, i :: 0 <= t < |D| && 0 <= i < |cc| ==> !Uses(D[t], cc[i].0))
    && (forall i, j :: 0 <= i < j < |cc| ==> cc[i].0 != cc[j].0)
    && (forall i :: 0 <= i < |cc| ==> 0 <= cc[i].0 < u && cc[i].0 !in nodes)
  }

  /** The sizes of the live nodes and of the components add up to n. */
  ghost predicate SizesAddUp(n: nat, s: map<int, int>, nodes: seq<int>, cc: seq<Component>) {
    (forall i :: 0 <= i < |nodes| ==> nodes[i] in s) && SizeSum(nodes, s) + ComponentSum(cc) == n
  }

  /** The state of `paris` between two steps of the chain loop, the next id being n + |D|: every
      leaf is in a live node, a row or a finished component (one less live node per row and per
      component), the graph and the weights are on the live nodes, and the sizes of the live nodes
      and of the components add up to n. */
  ghost predicate Building(n: nat, u: int, wtot: real, E: Adjacency, w: map<int, real>, s: map<int, int>,
                           nodes: seq<int>, D: seq<Record>, cc: seq<Component>)
  {
    && |nodes| + |D| + |cc| == n
    && u == n + |D| && NodesBelow(u, nodes)
    && Carried(wtot, E, w, s, nodes)
    && SizesAddUp(n, s, nodes, cc)
    && RowsBuilt(n, D)
    && Retired(u, D, nodes, cc)
  }

  // ---------------------------------------------------------------------------------------------
  // Sizes

  lemma {:induction false} SizeSumAppend(nodes: seq<int>, x: int, s: map<int, int>)
    requires (forall i :: 0 <= i < |nodes| ==> nodes[i] in s) && x in s
    ensures SizeSum(nodes + [x], s) == SizeSum(nodes, s) + s[x]
  {
    if nodes != [] {
      assert (nodes + [x])[1..] == nodes[1..] + [x];
      SizeSumAppend(nodes[1..], x, s);
    }
  }

  lemma {:induction false} SizeSumRemove(nodes: seq<int>, x: int, s: map<int, int>)
    requires (forall i :: 0 <= i < |nodes| ==> nodes[i] in s) && Distinct(nodes) && x in nodes
    ensures forall i :: 0 <= i < |RemoveId(nodes, x)| ==> RemoveId(nodes, x)[i] in s
    ensures SizeSum(RemoveId(nodes, x), s) == SizeSum(nodes, s) - s[x]
  {
    DistinctTail(nodes);
    if nodes[0] == x {
      RemoveIdDistinct(nodes[1..], x);
      assert RemoveId(nodes, x) == nodes[1..];
    } else {
      SizeSumRemove(nodes[1..], x, s);
      assert RemoveId(nodes, x) == [nodes[0]] + RemoveId(nodes[1..], x);
    }
  }

  lemma {:induction false} SizeSumFrame(nodes: seq<int>, s: map<int, int>, s': map<int, int>)
    requires forall i :: 0 <= i < |nodes| ==> nodes[i] in s && nodes[i] in s' && s[nodes[i]] == s'[nodes[i]]
    ensures SizeSum(nodes, s) == SizeSum(nodes, s')
  {
    if nodes != [] {
      SizeSumFrame(nodes[1..], s, s');
    }
  }

  lemma {:induction false} OnesSum(k: nat, s: map<int, int>)
    requires forall x :: 0 <= x < k ==> x in s && s[x] == 1
    ensures SizeSum(Range(0, k), s) == k
  {
    if k > 0 {
      OnesSum(k - 1, s);
      assert Range(0, k) == Range(0, k - 1) + [k - 1];
      SizeSumAppend(Range(0, k - 1), k - 1, s);
    }
  }

  // ---------------------------------------------------------------------------------------------
  // The state is kept by both steps of the chain loop

  /** The graph and the weights start on the nodes 0..n-1. */
  lemma StartCarried(n: nat, edges: seq<Edge>, w: map<int, real>, wtot: real, s: map<int, int>)
    requires ValidGraph(n, edges) && w.Keys == Upto(n) && wtot == 2.0 * Total(edges) && s.Keys == Upto(n)
    ensures Carried(wtot, EdgeMap(edges), w, s, Range(0, n))
  {
    var nodes := Range(0, n);
    forall x ensures x in Live(nodes) <==> x in Upto(n) {
      if 0 <= x < n {
        assert nodes[x] == x;
      }
    }
    EdgeMapIsGraph(n, edges);
    TotalPositive(n, edges);
  }

  /** The nodes 0..n-1 are distinct ids below n. */
  lemma StartNodes(n: nat)
    ensures |Range(0, n)| == n && NodesBelow(n, Range(0, n))
  {
    var nodes := Range(0, n);
    forall x | x in nodes ensures 0 <= x < n {
      var i :| 0 <= i < |nodes| && nodes[i] == x;
    }
  }

  /** n live nodes 0..n-1 carrying the graph, each of size 1, and nothing built yet. */
  lemma StartBuilding(n: nat, wtot: real, E: Adjacency, w: map<int, real>, s: map<int, int>)
    requires Carried(wtot, E, w, s, Range(0, n)) && forall x :: 0 <= x < n ==> x in s && s[x] == 1
    ensures Building(n, n, wtot, E, w, s, Range(0, n), [], [])
  {
    StartNodes(n);
    StartSizes(n, s);
  }

  /** n nodes of size 1 add up to n. */
  lemma StartSizes(n: nat, s: map<int, int>)
    requires forall x :: 0 <= x < n ==> x in s && s[x] == 1
    ensures SizesAddUp(n, s, Range(0, n), [])
  {
    OnesSum(n, s);
  }

  /** The live nodes once a and b are replaced by u. */
  lemma MergeKeepsNodes(u: int, nodes: seq<int>, a: int, b: int)
    requires NodesBelow(u, nodes) && a in nodes && b in nodes && a != b
    ensures var nodes' := RemoveId(RemoveId(nodes + [u], a), b);
            NodesBelow(u + 1, nodes') && |nodes'| == |nodes| - 1 && Live(nodes') == Live(nodes) - {a, b} + {u}
  {
    var withU := nodes + [u];
    assert u !in nodes;
    assert Distinct(withU) by {
      forall i, j | 0 <= i < j < |withU| ensures withU[i] != withU[j] {
        if j < |nodes| {
          assert withU[i] == nodes[i] && withU[j] == nodes[j];
        }
      }
    }
    RemoveIdDistinct(withU, a);
    RemoveIdDistinct(RemoveId(withU, a), b);
    LiveAppend(nodes, u);
    LiveRemove(withU, a);
    LiveRemove(RemoveId(withU, a), b);
  }

  /** The sizes once a and b are replaced by u of size `s[a] + s[b]`. */
  lemma MergeKeepsSizes(n: nat, u: int, s: map<int, int>, nodes: seq<int>, cc: seq<Component>, a: int, b: int,
                        s': map<int, int>, nodes': seq<int>)
    requires SizesAddUp(n, s, nodes, cc) && Distinct(nodes) && s.Keys == Live(nodes)
    requires a in nodes && b in nodes && a != b && u !in nodes
    requires s' == (s - {a, b})[u := s[a] + s[b]] && nodes' == RemoveId(RemoveId(nodes + [u], a), b)
    ensures SizesAddUp(n, s', nodes', cc)
  {
    var s1 := s[u := s[a] + s[b]];
    var withU := nodes + [u];
    assert Distinct(withU) by {
      forall i, j | 0 <= i < j < |withU| ensures withU[i] != withU[j] {
        if j < |nodes| {
          assert withU[i] == nodes[i] && withU[j] == nodes[j];
        }
      }
    }
    SizeSumFrame(nodes, s, s1);
    SizeSumAppend(nodes, u, s1);
    SizeSumRemove(withU, a, s1);
    RemoveIdDistinct(withU, a);
    SizeSumRemove(RemoveId(withU, a), b, s1);
    SizeSumFrame(nodes', s1, s');
  }

  /** The row `[a, b, d, size]` created as node u = n + |D| keeps the rows built. */
  lemma MergeKeepsRows(n: nat, u: int, D: seq<Record>, nodes: seq<int>, cc: seq<Component>, a: int, b: int, D': seq<Record>)
    requires RowsBuilt(n, D) && u == n + |D| && Retired(u, D, nodes, cc) && NodesBelow(u, nodes)
    requires a in nodes && b in nodes && a != b
    requires |D'| == |D| + 1 && D'[..|D|] == D && D'[|D|].left == a && D'[|D|].right == b
    ensures RowsBuilt(n, D')
  {
    forall r, t | 0 <= r < t < |D'| ensures !Uses(D'[t], D'[r].left) && !Uses(D'[t], D'[r].right) {
      if t == |D| {
        assert Uses(D[r], D[r].left) && Uses(D[r], D[r].right);
      }
    }
  }

  /** After the merge, no row uses a live node or a component. */
  lemma MergeKeepsRetired(n: nat, u: int, D: seq<Record>, nodes: seq<int>, cc: seq<Component>, a: int, b: int,
                          D': seq<Record>, nodes': seq<int>)
    requires RowsBuilt(n, D) && u == n + |D| && Retired(u, D, nodes, cc) && NodesBelow(u, nodes) && a in nodes && b in nodes
    requires |D'| == |D| + 1 && D'[..|D|] == D && D'[|D|].left == a && D'[|D|].right == b
    requires nodes' == RemoveId(RemoveId(nodes + [u], a), b)
    ensures Retired(u + 1, D', nodes', cc)
  {
    forall t | 0 <= t < |D'| ensures D'[t].left !in nodes' && D'[t].right !in nodes' {
      if t < |D| {
        assert D'[t] == D[t];
      }
    }
    forall t, i | 0 <= t < |D'| && 0 <= i < |cc| ensures !Uses(D'[t], cc[i].0) {
      if t < |D| {
        assert D'[t] == D[t];
      }
    }
  }

  /** The graph and the weights once a and b are contracted into u. */
  lemma MergeKeepsCarried(wtot: real, E: Adjacency, w: map<int, real>, s: map<int, int>, nodes: seq<int>,
                          a: int, b: int, u: int, E': Adjacency)
    requires Carried(wtot, E, w, s, nodes) && NodesBelow(u, nodes)
    requires a in nodes && (a, b) in E && Contracted(E, a, b, u, E')
    ensures b in nodes && a != b
    ensures Carried(wtot, E', (w - {a, b})[u := w[a] + w[b]], (s - {a, b})[u := s[a] + s[b]], RemoveId(RemoveId(nodes + [u], a), b))
  {
    MergeKeepsGraph(E, nodes, a, b, u, E');
    MergeKeepsKeys(w, s, nodes, a, b, u);
  }

  /** The graph on the live nodes once a and b are contracted into u. */
  lemma MergeKeepsGraph(E: Adjacency, nodes: seq<int>, a: int, b: int, u: int, E': Adjacency)
    requires GraphOn(E, Live(nodes)) && NodesBelow(u, nodes)
    requires a in nodes && (a, b) in E && Contracted(E, a, b, u, E')
    ensures b in nodes && a != b
    ensures GraphOn(E', Live(RemoveId(RemoveId(nodes + [u], a), b))) && (E' != map[] ==> E != map[])
  {
    var live := Live(nodes);
    assert b in live && a != b;
    MergeKeepsNodes(u, nodes, a, b);
    ContractedIsGraph(E, live, a, b, u, E');
    ContractedNonEmpty(E, a, b, u, E');
  }

  /** The weight and size maps keep the live nodes as keys once a and b are replaced by u. */
  lemma MergeKeepsKeys(w: map<int, real>, s: map<int, int>, nodes: seq<int>, a: int, b: int, u: int)
    requires w.Keys == Live(nodes) && s.Keys == Live(nodes) && NodesBelow(u, nodes)
    requires a in nodes && b in nodes && a != b
    ensures var live' := Live(RemoveId(RemoveId(nodes + [u], a), b));
            (w - {a, b})[u := w[a] + w[b]].Keys == live' && (s - {a, b})[u := s[a] + s[b]].Keys == live'
  {
    MergeKeepsNodes(u, nodes, a, b);
    MergedKeys(w, Live(nodes), a, b, u, w[a] + w[b]);
    MergedKeys(s, Live(nodes), a, b, u, s[a] + s[b]);
  }

  /** Replacing the entries of a and b by one for u. */
  lemma MergedKeys<V>(m: map<int, V>, live: set<int>, a: int, b: int, u: int, x: V)
    requires m.Keys == live
    ensures (m - {a, b})[u := x].Keys == live - {a, b} + {u}
  {
  }

  /** Contracting the mutual nearest neighbours a and b into u = n + |D| keeps the state. */
  lemma MergeKeepsBuilding(n: nat, u: int, wtot: real, E: Adjacency, w: map<int, real>, s: map<int, int>,
                           nodes: seq<int>, D: seq<Record>, cc: seq<Component>, a: int, b: int, d: Dist,
                           E': Adjacency, w': map<int, real>, s': map<int, int>, nodes': seq<int>, D': seq<Record>)
    requires Building(n, u, wtot, E, w, s, nodes, D, cc)
    requires a in nodes && (a, b) in E && b in s && Contracted(E, a, b, u, E')
    requires w' == (w - {a, b})[u := w[a] + w[b]] && s' == (s - {a, b})[u := s[a] + s[b]]
    requires nodes' == RemoveId(RemoveId(nodes + [u], a), b) && D' == D + [Record(a, b, d, s[a] + s[b])]
    ensures Building(n, u + 1, wtot, E', w', s', nodes', D', cc)
  {
    assert b in nodes && a != b && Carried(wtot, E', w', s', nodes') by {
      MergeKeepsCarried(wtot, E, w, s, nodes, a, b, u, E');
    }
    assert NodesBelow(u + 1, nodes') && |nodes'| == |nodes| - 1 by {
      MergeKeepsNodes(u, nodes, a, b);
    }
    assert D'[..|D|] == D;
    MergeKeepsSizes(n, u, s, nodes, cc, a, b, s', nodes');
    MergeKeepsRows(n, u, D, nodes, cc, a, b, D');
    MergeKeepsRetired(n, u, D, nodes, cc, a, b, D', nodes');
  }

  /** The live nodes once a is removed. */
  lemma RemovalKeepsNodes(u: int, nodes: seq<int>, a: int)
    requires NodesBelow(u, nodes) && a in nodes
    ensures var nodes' := RemoveId(nodes, a);
            NodesBelow(u, nodes') && |nodes'| == |nodes| - 1 && Live(nodes') == Live(nodes) - {a}
  {
    RemoveIdDistinct(nodes, a);
    LiveRemove(nodes, a);
  }

  /** The sizes once a leaves the nodes for a finished component of size `s[a]`. */
  lemma RemovalKeepsSizes(n: nat, s: map<int, int>, nodes: seq<int>, cc: seq<Component>, a: int)
    requires SizesAddUp(n, s, nodes, cc) && Distinct(nodes) && a in nodes && a in s
    ensures SizesAddUp(n, s - {a}, RemoveId(nodes, a), cc + [(a, s[a])])
  {
    var nodes' := RemoveId(nodes, a);
    SizeSumRemove(nodes, a, s);
    SizeSumFrame(nodes', s, s - {a});
    assert (cc + [(a, s[a])])[..|cc|] == cc;
  }

  /** After the removal of a, no row uses a live node or a component. */
  lemma RemovalKeepsRetired(u: int, D: seq<Record>, nodes: seq<int>, cc: seq<Component>, a: int, size: int)
    requires Retired(u, D, nodes, cc) && NodesBelow(u, nodes) && a in nodes
    ensures Retired(u, D, RemoveId(nodes, a), cc + [(a, size)])
  {
    var cc' := cc + [(a, size)];
    forall t, i | 0 <= t < |D| && 0 <= i < |cc'| ensures !Uses(D[t], cc'[i].0) {
      if i < |cc| {
        assert cc'[i] == cc[i];
      }
    }
    forall i, j | 0 <= i < j < |cc'| ensures cc'[i].0 != cc'[j].0 {
      assert cc'[i] == cc[i];
    }
  }

  /** A node with no neighbour leaves the graph unchanged when removed. */
  lemma RemoveIsolated(E: Adjacency, live: set<int>, a: int)
    requires GraphOn(E, live) && Neighbours(E, a) == {}
    ensures RemoveNode(E, a) == E && GraphOn(E, live - {a})
  {
    forall k | k in E ensures k.0 != a && k.1 != a {
    }
  }

  /** A node of the graph is live and below the next id, and the graph can be searched. */
  lemma LiveNode(n: nat, u: int, wtot: real, E: Adjacency, w: map<int, real>, s: map<int, int>,
                 nodes: seq<int>, D: seq<Record>, cc: seq<Component>, a: int)
    requires Building(n, u, wtot, E, w, s, nodes, D, cc) && a in w
    ensures a in nodes && 0 <= a < u && a in s
    ensures forall v :: (a, v) in E ==> v in w && v in s && v != a
    ensures Searchable(E, w, wtot) && forall k :: k in E ==> k.0 != k.1 && k.1 >= 0
  {
  }

  /** Removing the node a, which has no neighbour, as a finished component keeps the state. */
  lemma RemovalKeepsBuilding(n: nat, u: int, wtot: real, E: Adjacency, w: map<int, real>, s: map<int, int>,
                             nodes: seq<int>, D: seq<Record>, cc: seq<Component>, a: int,
                             E': Adjacency, w': map<int, real>, s': map<int, int>, nodes': seq<int>, cc': seq<Component>)
    requires Building(n, u, wtot, E, w, s, nodes, D, cc)
    requires a in nodes && Neighbours(E, a) == {}
    requires E' == RemoveNode(E, a) && w' == w - {a} && s' == s - {a}
    requires nodes' == RemoveId(nodes, a) && cc' == cc + [(a, s[a])]
    ensures E' == E && Building(n, u, wtot, E', w', s', nodes', D, cc')
  {
    assert NodesBelow(u, nodes') && |nodes'| == |nodes| - 1 && Live(nodes') == Live(nodes) - {a} by {
      RemovalKeepsNodes(u, nodes, a);
    }
    assert E' == E && GraphOn(E, Live(nodes) - {a}) by {
      RemoveIsolated(E, Live(nodes), a);
    }
    assert SizesAddUp(n, s', nodes', cc') by {
      RemovalKeepsSizes(n, s, nodes, cc, a);
    }
    assert Retired(u, D, nodes', cc') by {
      RemovalKeepsRetired(u, D, nodes, cc, a, s[a]);
    }
  }

  // ---------------------------------------------------------------------------------------------
  // The size column

  /** The size of the id x once the rows D are built on the leaves 0..n-1: 1 for a leaf, and the
      size column of the row that created x otherwise. */
  function SizeOf(n: nat, D: seq<Record>, x: int): int
    requires 0 <= x < n + |D|
  {
    if x < n then 1 else D[x - n].size
  }

  /** Row t merges two ids created before it, and has the size of the two together. */
  ghost predicate SizedRow(n: nat, D: seq<Record>, t: int)
    requires 0 <= t < |D|
  {
    && 0 <= D[t].left < n + t && 0 <= D[t].right < n + t
    && D[t].size == SizeOf(n, D, D[t].left) + SizeOf(n, D, D[t].right)
  }

  /** Every row has the size of the two ids it merges together. */
  ghost predicate RowSizes(n: nat, D: seq<Record>) {
    forall t :: 0 <= t < |D| ==> SizedRow(n, D, t)
  }

  /** `s[x]` is the size of every live node x. */
  ghost predicate LiveSizes(n: nat, s: map<int, int>, D: seq<Record>) {
    forall x :: x in s ==> 0 <= x < n + |D| && s[x] == SizeOf(n, D, x)
  }

  /** Every finished component `(a, size)` has the size of a. */
  ghost predicate ComponentSizes(n: nat, D: seq<Record>, cc: seq<Component>) {
    forall i :: 0 <= i < |cc| ==> 0 <= cc[i].0 < n + |D| && cc[i].1 == SizeOf(n, D, cc[i].0)
  }

  /** The size column, the sizes of the live nodes and those of the components agree. */
  ghost predicate SizesKept(n: nat, s: map<int, int>, D: seq<Record>, cc: seq<Component>) {
    RowSizes(n, D) && LiveSizes(n, s, D) && ComponentSizes(n, D, cc)
  }

  /** The leaves under the id x once the rows D are built on the leaves 0..n-1, left subtree
      first. */
  ghost function Under(n: nat, D: seq<Record>, x: int): seq<int>
    requires RowsBuilt(n, D) && 0 <= x < n + |D|
    decreases x
  {
    if x < n then [x] else Under(n, D, D[x - n].left) + Under(n, D, D[x - n].right)
  }

  /** The n leaves of size 1 before any row. */
  lemma StartSizesKept(n: nat, s: map<int, int>)
    requires s.Keys == Upto(n) && forall x :: x in s ==> s[x] == 1
    ensures SizesKept(n, s, [], [])
  {
  }

  /** The merge of a and b into the node u = n + |D| of size `s[a] + s[b]` keeps the sizes. */
  lemma MergeKeepsSizesKept(n: nat, u: int, s: map<int, int>, D: seq<Record>, cc: seq<Component>,
                            a: int, b: int, d: Dist)
    requires SizesKept(n, s, D, cc) && u == n + |D| && a in s && b in s
    ensures SizesKept(n, (s - {a, b})[u := s[a] + s[b]], D + [Record(a, b, d, s[a] + s[b])], cc)
  {
    var D' := D + [Record(a, b, d, s[a] + s[b])];
    forall x | 0 <= x < n + |D| ensures SizeOf(n, D', x) == SizeOf(n, D, x) {
      if x >= n {
        assert D'[x - n] == D[x - n];
      }
    }
    forall t | 0 <= t < |D'| ensures SizedRow(n, D', t) {
      if t < |D| {
        assert SizedRow(n, D, t) && D'[t] == D[t];
      }
    }
    assert SizeOf(n, D', u) == s[a] + s[b];
  }

  /** The retirement of a as the component `(a, s[a])` keeps the sizes. */
  lemma RetireKeepsSizesKept(n: nat, s: map<int, int>, D: seq<Record>, cc: seq<Component>, a: int)
    requires SizesKept(n, s, D, cc) && a in s
    ensures SizesKept(n, s - {a}, D, cc + [(a, s[a])])
  {
  }

  /** The size of an id is the number of leaves under it. */
  lemma {:induction false} SizeCountsLeaves(n: nat, D: seq<Record>, x: int)
    requires RowsBuilt(n, D) && RowSizes(n, D) && 0 <= x < n + |D|
    ensures SizeOf(n, D, x) == |Under(n, D, x)|
    decreases x
  {
    if x >= n {
      assert SizedRow(n, D, x - n);
      SizeCountsLeaves(n, D, D[x - n].left);
      SizeCountsLeaves(n, D, D[x - n].right);
    }
  }

  /** Once the rows are built on |D| + 1 leaves, the leaves under an id are `cluster[x]`. */
  lemma {:induction false} UnderComplete(D: seq<Record>, x: int)
    requires WellFormed(D) && 0 <= x <= Root(D)
    ensures RowsBuilt(|D| + 1, D) && Under(|D| + 1, D, x) == LeavesUnder(D, x)
    decreases x
  {
    if x > |D| {
      UnderComplete(D, D[x - |D| - 1].left);
      UnderComplete(D, D[x - |D| - 1].right);
    }
  }

  /** Every row, and every component, counts the leaves under its id. */
  lemma SizesCounted(n: nat, D: seq<Record>, cc: seq<Component>)
    requires RowsBuilt(n, D) && RowSizes(n, D) && ComponentSizes(n, D, cc)
    ensures forall t :: 0 <= t < |D| ==> D[t].size == |Under(n, D, n + t)|
    ensures forall i :: 0 <= i < |cc| ==> 0 <= cc[i].0 < n + |D| && cc[i].1 == |Under(n, D, cc[i].0)|
  {
    forall t | 0 <= t < |D| ensures D[t].size == |Under(n, D, n + t)| {
      SizeCountsLeaves(n, D, n + t);
    }
    forall i | 0 <= i < |cc| ensures cc[i].1 == |Under(n, D, cc[i].0)| {
      SizeCountsLeaves(n, D, cc[i].0);
    }
  }

  // ---------------------------------------------------------------------------------------------
  // The two steps of the chain loop that change the graph

  /** Mutual nearest neighbours a and b at distance d: the row `[a, b, d, s[a] + s[b]]` is appended,
      the graph is contracted into the fresh node u, whose weight and size are the sums of those of
      a and b, and u is appended to the node list from which a and b are removed. */
  method Merge(n: nat, u: int, wtot: real, E: Adjacency, w: map<int, real>, s: map<int, int>,
               nodes: seq<int>, D: seq<Record>, cc: seq<Component>, a: int, b: int, d: Dist)
    returns (u': int, E': Adjacency, w': map<int, real>, s': map<int, int>, nodes': seq<int>, D': seq<Record>)
    requires Building(n, u, wtot, E, w, s, nodes, D, cc) && a in w && (a, b) in E
    ensures b in w && a != b
    ensures Contracted(E, a, b, u, E')
    ensures w' == (w - {a, b})[u := w[a] + w[b]] && s' == (s - {a, b})[u := s[a] + s[b]]
    ensures nodes' == RemoveId(RemoveId(nodes + [u], a), b) && |nodes'| == |nodes| - 1
    ensures D' == D + [Record(a, b, d, s[a] + s[b])]
    ensures u' == u + 1 && Building(n, u', wtot, E', w', s', nodes', D', cc)
  {
    LiveNode(n, u, wtot, E, w, s, nodes, D, cc, a);
    u' := u + 1;
    D' := D + [Record(a, b, d, s[a] + s[b])];
    E' := Contract(E, a, b, u);
    nodes' := RemoveId(RemoveId(nodes + [u], a), b);
    w' := (w - {a, b})[u := w[a] + w[b]];
    s' := (s - {a, b})[u := s[a] + s[b]];
    MergeKeepsBuilding(n, u, wtot, E, w, s, nodes, D, cc, a, b, d, E', w', s', nodes', D');
    MergeKeepsNodes(u, nodes, a, b);
  }

  /** A node a without neighbour: `(a, s[a])` is appended to the components and a leaves the graph,
      the weights, the sizes and the node list. */
  method Retire(n: nat, u: int, wtot: real, E: Adjacency, w: map<int, real>, s: map<int, int>,
                nodes: seq<int>, D: seq<Record>, cc: seq<Component>, a: int)
    returns (E': Adjacency, w': map<int, real>, s': map<int, int>, nodes': seq<int>, cc': seq<Component>)
    requires Building(n, u, wtot, E, w, s, nodes, D, cc) && a in w && Neighbours(E, a) == {}
    ensures E' == RemoveNode(E, a) == E && w' == w - {a} && s' == s - {a}
    ensures nodes' == RemoveId(nodes, a) && |nodes'| == |nodes| - 1
    ensures cc' == cc + [(a, s[a])]
    ensures Building(n, u, wtot, E', w', s', nodes', D, cc')
  {
    LiveNode(n, u, wtot, E, w, s, nodes, D, cc, a);
    cc' := cc + [(a, s[a])];
    E' := RemoveNode(E, a);
    nodes' := RemoveId(nodes, a);
    w' := w - {a};
    s' := s - {a};
    RemovalKeepsBuilding(n, u, wtot, E, w, s, nodes, D, cc, a, E', w', s', nodes', cc');
    RemovalKeepsNodes(u, nodes, a);
  }

  // ---------------------------------------------------------------------------------------------
  // Reducibility along the chain

  /** Merging a with b, its nearest neighbour and the node just below it on the chain, keeps the
      rows no farther than their parents and the edges no shorter than the nodes they leave, with
      the chain below the pair. */
  lemma MergeKeepsReducible(n: nat, u: int, wtot: real, E: Adjacency, w: map<int, real>, s: map<int, int>,
                            nodes: seq<int>, D: seq<Record>, cc: seq<Component>, chain: seq<int>, a: int, b: int,
                            u': int, E': Adjacency, w': map<int, real>, D': seq<Record>)
    requires Building(n, u, wtot, E, w, s, nodes, D, cc) && Reducible(n, u, wtot, E, w, D, chain)
    requires |chain| >= 2 && chain[|chain| - 1] == a && chain[|chain| - 2] == b && a in w && b in w
    requires IsNearest(E, w, wtot, a, b) && Contracted(E, a, b, u, E') && w' == (w - {a, b})[u := w[a] + w[b]]
    requires u' == u + 1 && |D'| == |D| + 1 && D'[..|D|] == D
    requires D'[|D|].left == a && D'[|D|].right == b && D'[|D|].dist == Finite(PairDistance(E, w, wtot, a, b))
    ensures Reducible(n, u', wtot, E', w', D', chain[..|chain| - 2])
  {
    var live := Live(nodes);
    assert Contraction(E, w, wtot, live, a, b, u, E', w');
    ContractionWeighted(E, w, wtot, live, a, b, u, E', w');
    assert Nearer(E, w, wtot, b, a);
    ContractionNoCloser(n, E, w, wtot, live, a, b, u, E', w', D, D');
    ContractionRowsNoFarther(n, E, w, wtot, a, b, D, D');
    ChainPrefixLinked(E, w, wtot, u, chain, |chain| - 2);
    ContractionChainLinked(E, w, wtot, live, a, b, u, E', w', chain[..|chain| - 2]);
  }

  /** Pushing b, the nearest neighbour of the top a of the chain or the `-1` of none, keeps the chain
      linked. */
  lemma PushKeepsReducible(n: nat, u: int, wtot: real, E: Adjacency, w: map<int, real>, s: map<int, int>,
                           nodes: seq<int>, D: seq<Record>, cc: seq<Component>, chain: seq<int>, a: int, b: int)
    requires Building(n, u, wtot, E, w, s, nodes, D, cc) && Reducible(n, u, wtot, E, w, D, chain)
    requires chain != [] && chain[|chain| - 1] == a
    requires b == -1 || IsNearest(E, w, wtot, a, b)
    ensures Reducible(n, u, wtot, E, w, D, chain + [b])
  {
    if b != -1 {
      assert b in Live(nodes);
    }
    ChainPushLinked(E, w, wtot, u, chain, b);
  }

  /** A round starts its chain at a live node. */
  lemma StartChainReducible(n: nat, u: int, wtot: real, E: Adjacency, w: map<int, real>, s: map<int, int>,
                            nodes: seq<int>, D: seq<Record>, cc: seq<Component>)
    requires Building(n, u, wtot, E, w, s, nodes, D, cc) && Reducible(n, u, wtot, E, w, D, []) && nodes != []
    ensures Reducible(n, u, wtot, E, w, D, [nodes[0]])
  {
    assert nodes[0] in nodes;
  }

  /** Retiring a node without neighbour keeps the rest reducible, with an empty chain. */
  lemma RetireKeepsReducible(n: nat, u: int, wtot: real, E: Adjacency, w: map<int, real>, s: map<int, int>,
                             nodes: seq<int>, D: seq<Record>, cc: seq<Component>, chain: seq<int>, a: int)
    requires Building(n, u, wtot, E, w, s, nodes, D, cc) && Reducible(n, u, wtot, E, w, D, chain)
    requires Neighbours(E, a) == {}
    ensures Reducible(n, u, wtot, E, w - {a}, D, [])
  {
    RemovalReducible(n, u, wtot, E, w, D, a);
  }

  // ---------------------------------------------------------------------------------------------
  // The trace of the merges

  /** Row t of the chain loop, appended when the graph was E and the node weights V: it merges a
      node with its nearest neighbour at their Paris distance, and E' and V' are the contraction of
      the two into the node n + t the row creates. */
  ghost predicate Merged(n: nat, wtot: real, row: Record, t: int, E: Adjacency, V: map<int, real>,
                         E': Adjacency, V': map<int, real>)
  {
    var a, b := row.left, row.right;
    && Searchable(E, V, wtot)
    && IsNearest(E, V, wtot, a, b)
    && row.dist == Finite(PairDistance(E, V, wtot, a, b))
    && Contracted(E, a, b, n + t, E')
    && V' == (V - {a, b})[n + t := V[a] + V[b]]
  }

  /** G and W are the graphs and the node weights the rows D went through, one more than rows:
      the rows before the last are traced by the graphs and weights before the last, and the last
      row merges in the last but one graph and weights into the last. */
  ghost predicate Traced(n: nat, wtot: real, D: seq<Record>, G: seq<Adjacency>, W: seq<map<int, real>>)
    decreases |D|
  {
    && |G| == |W| == |D| + 1
    && (D != [] ==>
          var k := |D| - 1;
          && Traced(n, wtot, D[..k], G[..k + 1], W[..k + 1])
          && Merged(n, wtot, D[k], k, G[k], W[k], G[k + 1], W[k + 1]))
  }

  /** Every row of a trace is a merge of nearest neighbours in the graph before it. */
  lemma TracedRows(n: nat, wtot: real, D: seq<Record>, G: seq<Adjacency>, W: seq<map<int, real>>)
    requires Traced(n, wtot, D, G, W)
    ensures forall t :: 0 <= t < |D| ==> Merged(n, wtot, D[t], t, G[t], W[t], G[t + 1], W[t + 1])
  {
    forall t | 0 <= t < |D| ensures Merged(n, wtot, D[t], t, G[t], W[t], G[t + 1], W[t + 1]) {
      TracedRow(n, wtot, D, G, W, t);
    }
  }

  /** Row t of a trace merges in graph t into graph t + 1. */
  lemma {:induction false} TracedRow(n: nat, wtot: real, D: seq<Record>, G: seq<Adjacency>, W: seq<map<int, real>>,
                                     t: nat)
    requires Traced(n, wtot, D, G, W) && t < |D|
    ensures Merged(n, wtot, D[t], t, G[t], W[t], G[t + 1], W[t + 1])
    decreases |D|
  {
    var k := |D| - 1;
    if t < k {
      TracedRow(n, wtot, D[..k], G[..k + 1], W[..k + 1], t);
      assert D[..k][t] == D[t] && G[..k + 1][t] == G[t] && G[..k + 1][t + 1] == G[t + 1];
      assert W[..k + 1][t] == W[t] && W[..k + 1][t + 1] == W[t + 1];
    } else {
      assert t == k;
    }
  }

  /** The trace of the rows D ends at the current graph E, and its last weights agree with the
      current weights w; they also keep the weights of the retired nodes. */
  ghost predicate Follows(n: nat, wtot: real, E: Adjacency, w: map<int, real>, D: seq<Record>,
                          G: seq<Adjacency>, W: seq<map<int, real>>)
  {
    && Traced(n, wtot, D, G, W) && G[|D|] == E
    && forall x :: x in w ==> x in W[|D|] && W[|D|][x] == w[x]
  }

  /** The distances of a node only read the weights of the nodes with an edge: weights that agree
      with w on its keys give the same nearest neighbour at the same distance. */
  lemma NearestAgrees(E: Adjacency, w: map<int, real>, V: map<int, real>, wtot: real, a: int, b: int)
    requires Searchable(E, w, wtot) && forall x :: x in w ==> x in V && V[x] == w[x]
    ensures Searchable(E, V, wtot)
    ensures IsNearest(E, w, wtot, a, b) ==>
              IsNearest(E, V, wtot, a, b) && PairDistance(E, V, wtot, a, b) == PairDistance(E, w, wtot, a, b)
  {
    forall k | k in E ensures k.0 in V && k.1 in V {
      var x, y := k.0, k.1;
      assert x in w && y in w;
      assert x in V && y in V;
    }
    forall v | (a, v) in E ensures PairDistance(E, V, wtot, a, v) == PairDistance(E, w, wtot, a, v) {
      assert a in w && v in w;
      assert V[a] == w[a] && V[v] == w[v];
    }
  }

  /** A merge of a with its nearest neighbour b extends the trace by the contracted graph and the
      contracted weights. */
  lemma TracedMerge(n: nat, wtot: real, E: Adjacency, w: map<int, real>, D: seq<Record>, G: seq<Adjacency>,
                    W: seq<map<int, real>>, a: int, b: int, u: int, E': Adjacency, w': map<int, real>, row: Record)
    returns (G': seq<Adjacency>, W': seq<map<int, real>>)
    requires Follows(n, wtot, E, w, D, G, W) && Searchable(E, w, wtot) && IsNearest(E, w, wtot, a, b)
    requires u == n + |D| && Contracted(E, a, b, u, E') && w' == (w - {a, b})[u := w[a] + w[b]]
    requires row.left == a && row.right == b && row.dist == Finite(PairDistance(E, w, wtot, a, b))
    ensures Follows(n, wtot, E', w', D + [row], G', W') && G'[0] == G[0] && W'[0] == W[0]
  {
    var V := W[|D|];
    var V' := (V - {a, b})[u := V[a] + V[b]];
    assert a in w && b in w;
    MergedAgrees(n, wtot, E, w, V, row, |D|, a, b, u, E', V');
    ContractionAgrees(w, V, a, b, u, w', V');
    var D' := D + [row];
    G' := G + [E'];
    W' := W + [V'];
    assert D'[..|D|] == D && G'[..|D| + 1] == G && W'[..|D| + 1] == W;
    assert D'[|D|] == row && G'[|D|] == E && G'[|D| + 1] == E' && W'[|D|] == V && W'[|D| + 1] == V';
  }

  /** The merge of a with its nearest neighbour b, read against node weights V that agree with the
      current weights w, is the row of a trace. */
  lemma MergedAgrees(n: nat, wtot: real, E: Adjacency, w: map<int, real>, V: map<int, real>, row: Record, t: int,
                     a: int, b: int, u: int, E': Adjacency, V': map<int, real>)
    requires row.left == a && row.right == b && u == n + t
    requires Searchable(E, w, wtot) && IsNearest(E, w, wtot, a, b) && Contracted(E, a, b, u, E')
    requires forall x :: x in w ==> x in V && V[x] == w[x]
    requires row.dist == Finite(PairDistance(E, w, wtot, a, b))
    requires a in V && b in V && V' == (V - {a, b})[u := V[a] + V[b]]
    ensures Merged(n, wtot, row, t, E, V, E', V')
  {
    NearestAgrees(E, w, V, wtot, a, b);
    ContractedAt(E, a, b, u, n + t, E');
  }

  /** Contracted names the fresh node by value. */
  lemma ContractedAt(E: Adjacency, a: int, b: int, u: int, u': int, E': Adjacency)
    requires Contracted(E, a, b, u, E') && u == u'
    ensures Contracted(E, a, b, u', E')
  {
  }

  /** Contracting a and b in two weight maps that agree on the keys of the first keeps them
      agreeing. */
  lemma ContractionAgrees(w: map<int, real>, V: map<int, real>, a: int, b: int, u: int, w': map<int, real>,
                          V': map<int, real>)
    requires forall x :: x in w ==> x in V && V[x] == w[x]
    requires a in w && b in w && w' == (w - {a, b})[u := w[a] + w[b]] && V' == (V - {a, b})[u := V[a] + V[b]]
    ensures forall x :: x in w' ==> x in V' && V'[x] == w'[x]
  {
    forall x | x in w' ensures x in V' && V'[x] == w'[x] {
      if x != u {
        assert x in w && x != a && x != b;
      }
    }
  }

  /** Once no node is left, every node is in a row or a component and the graph is empty. */
  lemma Drained(n: nat, u: int, wtot: real, E: Adjacency, w: map<int, real>, s: map<int, int>,
                nodes: seq<int>, D: seq<Record>, cc: seq<Component>)
    requires Building(n, u, wtot, E, w, s, nodes, D, cc) && nodes == []
    ensures Finished(n, D, cc) && E == map[]
  {
    assert E.Keys == {};
  }

  // ---------------------------------------------------------------------------------------------
  // The chain loop

  /** The state once the graph is empty: every leaf is in a row or a finished component, whose
      sizes add up to n, and no row merges a component. */
  ghost predicate Finished(n: nat, D: seq<Record>, cc: seq<Component>) {
    && |D| + |cc| == n && ComponentSum(cc) == n
    && RowsBuilt(n, D) && Retired(n + |D|, D, [], cc)
  }

  /** Every row built by the chain loop has a finite distance. */
  ghost predicate AllFinite(D: seq<Record>) {
    forall t :: 0 <= t < |D| ==> D[t].dist.Finite?
  }

  /** Only the top of the chain may be the `-1` of a node without neighbour. */
  ghost predicate ChainBelowTop(chain: seq<int>) {
    forall i :: 0 <= i < |chain| - 1 ==> chain[i] >= 0
  }

  /** Popping the top of the chain leaves nodes only, and so does popping one more. */
  lemma ChainPop(chain: seq<int>)
    requires ChainBelowTop(chain) && chain != []
    ensures var rest := chain[..|chain| - 1];
            ChainBelowTop(rest) && (rest != [] ==> rest[|rest| - 1] >= 0 && ChainBelowTop(rest[..|rest| - 1]))
  {
  }

  /** A merge at a finite distance keeps every row finite. */
  lemma AppendFinite(D: seq<Record>, row: Record)
    requires AllFinite(D) && row.dist.Finite?
    ensures AllFinite(D + [row])
  {
  }

  /** The push branch of a chain step: a goes back on top of the chain and its nearest neighbour b,
      or `-1`, above it. */
  lemma PushStep(n: nat, u: int, wtot: real, E: Adjacency, w: map<int, real>, s: map<int, int>,
                 nodes: seq<int>, D: seq<Record>, cc: seq<Component>, chain: seq<int>, a: int, b: int)
    requires Building(n, u, wtot, E, w, s, nodes, D, cc) && Reducible(n, u, wtot, E, w, D, chain)
    requires ChainBelowTop(chain) && chain != [] && chain[|chain| - 1] == a && a >= 0
    requires b == -1 || IsNearest(E, w, wtot, a, b)
    requires !(|chain| >= 2 && b == chain[|chain| - 2]) && (b != -1 || |chain| >= 2)
    ensures ChainBelowTop(chain + [b]) && Reducible(n, u, wtot, E, w, D, chain + [b])
    ensures Stepped(n, u, wtot, E, w, s, nodes, D, cc, chain, a, b, u, E, w, s, nodes, D, cc, chain + [b])
  {
    PushKeepsReducible(n, u, wtot, E, w, s, nodes, D, cc, chain, a, b);
  }

  /** The retire branch of a chain step: a, alone on the chain, has no neighbour and becomes a
      finished component. */
  method RetireAlone(n: nat, u: int, wtot: real, E: Adjacency, w: map<int, real>, s: map<int, int>,
                     nodes: seq<int>, D: seq<Record>, cc: seq<Component>, chain: seq<int>, a: int,
                     ghost G: seq<Adjacency>, ghost W: seq<map<int, real>>)
    returns (E': Adjacency, w': map<int, real>, s': map<int, int>, nodes': seq<int>, cc': seq<Component>)
    requires Building(n, u, wtot, E, w, s, nodes, D, cc) && Reducible(n, u, wtot, E, w, D, chain)
    requires chain == [a] && a in w && Neighbours(E, a) == {} && Follows(n, wtot, E, w, D, G, W)
    ensures Stepped(n, u, wtot, E, w, s, nodes, D, cc, chain, a, -1, u, E', w', s', nodes', D, cc', [])
    ensures Building(n, u, wtot, E', w', s', nodes', D, cc') && |nodes'| < |nodes|
    ensures Reducible(n, u, wtot, E', w', D, []) && Follows(n, wtot, E', w', D, G, W)
  {
    RetireKeepsReducible(n, u, wtot, E, w, s, nodes, D, cc, chain, a);
    E', w', s', nodes', cc' := Retire(n, u, wtot, E, w, s, nodes, D, cc, a);
  }

  /** The merge branch of a chain step: a, on top of the chain, and b, just below it, are each
      other's nearest neighbours and are merged into the new node u. */
  method MergeNearest(n: nat, u: int, wtot: real, E: Adjacency, w: map<int, real>, s: map<int, int>,
                      nodes: seq<int>, D: seq<Record>, cc: seq<Component>, chain: seq<int>, a: int, b: int, dMin: Dist,
                      ghost G: seq<Adjacency>, ghost W: seq<map<int, real>>)
    returns (u': int, E': Adjacency, w': map<int, real>, s': map<int, int>, nodes': seq<int>, D': seq<Record>,
             ghost G': seq<Adjacency>, ghost W': seq<map<int, real>>)
    requires Building(n, u, wtot, E, w, s, nodes, D, cc) && AllFinite(D) && Reducible(n, u, wtot, E, w, D, chain)
    requires |chain| >= 2 && chain[|chain| - 1] == a && chain[|chain| - 2] == b && a in w
    requires IsNearest(E, w, wtot, a, b) && dMin == Finite(PairDistance(E, w, wtot, a, b))
    requires Follows(n, wtot, E, w, D, G, W)
    ensures D' == D + [Record(a, b, dMin, s[a] + s[b])] && u' == u + 1 && Contracted(E, a, b, u, E')
    ensures w' == (w - {a, b})[u := w[a] + w[b]] && s' == (s - {a, b})[u := s[a] + s[b]]
    ensures nodes' == RemoveId(RemoveId(nodes + [u], a), b) && |nodes'| == |nodes| - 1
    ensures Building(n, u', wtot, E', w', s', nodes', D', cc)
    ensures AllFinite(D') && Reducible(n, u', wtot, E', w', D', chain[..|chain| - 2])
    ensures Follows(n, wtot, E', w', D', G', W') && G'[0] == G[0] && W'[0] == W[0]
    ensures Stepped(n, u, wtot, E, w, s, nodes, D, cc, chain, a, b, u', E', w', s', nodes', D', cc, chain[..|chain| - 2])
  {
    u', E', w', s', nodes', D' := Merge(n, u, wtot, E, w, s, nodes, D, cc, a, b, dMin);
    AppendFinite(D, Record(a, b, dMin, s[a] + s[b]));
    MergeKeepsReducible(n, u, wtot, E, w, s, nodes, D, cc, chain, a, b, u', E', w', D');
    G', W' := TracedMerge(n, wtot, E, w, D, G, W, a, b, u, E', w', Record(a, b, dMin, s[a] + s[b]));
  }

  /** The outcome of a chain step that pops a, b being the nearest neighbour of a or `-1`: a and b
      merged into the node u when b is just below a on the chain; else b pushed above a, unless a
      was alone on the chain without a neighbour; and a retired as a finished component then. */
  ghost predicate Stepped(n: nat, u: int, wtot: real, E: Adjacency, w: map<int, real>, s: map<int, int>,
                          nodes: seq<int>, D: seq<Record>, cc: seq<Component>, chain: seq<int>, a: int, b: int,
                          u': int, E': Adjacency, w': map<int, real>, s': map<int, int>,
                          nodes': seq<int>, D': seq<Record>, cc': seq<Component>, chain': seq<int>)
  {
    && chain != [] && chain[|chain| - 1] == a
    && if |chain| >= 2 && b == chain[|chain| - 2] then
         && Searchable(E, w, wtot) && IsNearest(E, w, wtot, a, b) && a in s && b in s
         && D' == D + [Record(a, b, Finite(PairDistance(E, w, wtot, a, b)), s[a] + s[b])]
         && u' == u + 1 && Contracted(E, a, b, u, E')
         && w' == (w - {a, b})[u := w[a] + w[b]] && s' == (s - {a, b})[u := s[a] + s[b]]
         && nodes' == RemoveId(RemoveId(nodes + [u], a), b) && cc' == cc && chain' == chain[..|chain| - 2]
       else if b != -1 || |chain| >= 2 then
         && chain' == chain + [b]
         && u' == u && E' == E && w' == w && s' == s && nodes' == nodes && D' == D && cc' == cc
       else
         && a in s && cc' == cc + [(a, s[a])] && chain' == []
         && u' == u && E' == E && w' == w - {a} && s' == s - {a} && nodes' == RemoveId(nodes, a) && D' == D
  }

  /** What a chain step needs of the state and keeps: the state of the chain loop, finite rows, a
      chain of nodes below its top, the reducibility of the chain, and the trace of the rows. */
  ghost predicate Ready(n: nat, u: int, wtot: real, E: Adjacency, w: map<int, real>, s: map<int, int>,
                        nodes: seq<int>, D: seq<Record>, cc: seq<Component>, chain: seq<int>,
                        G: seq<Adjacency>, W: seq<map<int, real>>)
  {
    && Building(n, u, wtot, E, w, s, nodes, D, cc) && AllFinite(D) && ChainBelowTop(chain)
    && Reducible(n, u, wtot, E, w, D, chain) && Follows(n, wtot, E, w, D, G, W)
  }

  /** One step of the chain: a is popped and, with b its nearest neighbour (`-1` for none), a and
      b are merged when b was just below a on the chain, a is retired when it was alone on the
      chain without a neighbour, and otherwise a and b are pushed back. Popping a node that is no
      longer in the graph is the NetworkXError of `graph_copy.neighbors`. */
  method ChainStep(n: nat, u: int, wtot: real, E: Adjacency, w: map<int, real>, s: map<int, int>,
                   nodes: seq<int>, D: seq<Record>, cc: seq<Component>, chain: seq<int>,
                   ghost G: seq<Adjacency>, ghost W: seq<map<int, real>>)
    returns (r: Result<()>, b: int, u': int, E': Adjacency, w': map<int, real>, s': map<int, int>,
             nodes': seq<int>, D': seq<Record>, cc': seq<Component>, chain': seq<int>,
             ghost G': seq<Adjacency>, ghost W': seq<map<int, real>>)
    requires Ready(n, u, wtot, E, w, s, nodes, D, cc, chain, G, W) && chain != []
    ensures r.Failure? <==> chain[|chain| - 1] !in w
    ensures r.Success? ==> (b == -1 <==> Neighbours(E, chain[|chain| - 1]) == {})
    ensures r.Success? && b != -1 ==> IsNearest(E, w, wtot, chain[|chain| - 1], b)
    ensures r.Success? ==> Stepped(n, u, wtot, E, w, s, nodes, D, cc, chain, chain[|chain| - 1], b, u', E', w', s', nodes', D', cc', chain')
    ensures r.Success? ==> Ready(n, u', wtot, E', w', s', nodes', D', cc', chain', G', W') && G'[0] == G[0] && W'[0] == W[0]
    ensures r.Success? ==> |nodes'| <= |nodes| && (chain' == [] ==> |nodes'| < |nodes|)
  {
    u', E', w', s', nodes', D', cc', G', W' := u, E, w, s, nodes, D, cc, G, W;
    ChainPop(chain);
    var a := chain[|chain| - 1];
    chain' := chain[..|chain| - 1];
    if a !in w {
      return Failure("NetworkXError"), -1, u', E', w', s', nodes', D', cc', chain', G', W';
    }
    LiveNode(n, u, wtot, E, w, s, nodes, D, cc, a);
    var dMin;
    b, dMin := NearestNeighbour(E, w, wtot, a);
    r := Success(());
    if chain' != [] {
      var c := chain'[|chain'| - 1];
      assert c == chain[|chain| - 2];
      chain' := chain'[..|chain'| - 1];
      assert chain' == chain[..|chain| - 2];
      if b == c {
        u', E', w', s', nodes', D', G', W' := MergeNearest(n, u, wtot, E, w, s, nodes, D, cc, chain, a, b, dMin, G, W);
      } else {
        PushStep(n, u, wtot, E, w, s, nodes, D, cc, chain, a, b);
        chain' := chain + [b];  // c, a and b pushed back
      }
    } else if b >= 0 {
      PushStep(n, u, wtot, E, w, s, nodes, D, cc, chain, a, b);
      chain' := chain + [b];  // a and b pushed
    } else {
      E', w', s', nodes', cc' := RetireAlone(n, u, wtot, E, w, s, nodes, D, cc, chain, a, G, W);
    }
  }

  /** A chain step appends at most one row, and retires a component only as it empties the chain. */
  lemma StepExtends(n: nat, u: int, wtot: real, E: Adjacency, w: map<int, real>, s: map<int, int>,
                    nodes: seq<int>, D: seq<Record>, cc: seq<Component>, chain: seq<int>, a: int, b: int,
                    u': int, E': Adjacency, w': map<int, real>, s': map<int, int>,
                    nodes': seq<int>, D': seq<Record>, cc': seq<Component>, chain': seq<int>)
    requires Stepped(n, u, wtot, E, w, s, nodes, D, cc, chain, a, b, u', E', w', s', nodes', D', cc', chain')
    ensures |D| <= |D'| <= |D| + 1 && D'[..|D|] == D
    ensures |cc| <= |cc'| <= |cc| + 1 && cc'[..|cc|] == cc && (chain' != [] ==> |cc'| == |cc|)
  {
  }

  /** A chain step keeps the sizes: a merge row has the size of its two operands, which the new
      node takes, and a retired component keeps the size of its node. */
  lemma StepKeepsSizes(n: nat, u: int, wtot: real, E: Adjacency, w: map<int, real>, s: map<int, int>,
                       nodes: seq<int>, D: seq<Record>, cc: seq<Component>, chain: seq<int>, a: int, b: int,
                       u': int, E': Adjacency, w': map<int, real>, s': map<int, int>,
                       nodes': seq<int>, D': seq<Record>, cc': seq<Component>, chain': seq<int>)
    requires Stepped(n, u, wtot, E, w, s, nodes, D, cc, chain, a, b, u', E', w', s', nodes', D', cc', chain')
    requires SizesKept(n, s, D, cc) && u == n + |D|
    ensures SizesKept(n, s', D', cc')
  {
    if |chain| >= 2 && b == chain[|chain| - 2] {
      MergeKeepsSizesKept(n, u, s, D, cc, a, b, Finite(PairDistance(E, w, wtot, a, b)));
    } else if b == -1 && |chain| < 2 {
      RetireKeepsSizesKept(n, s, D, cc, a);
    }
  }

  lemma PrefixKept<T>(D: seq<T>, D0: seq<T>, D': seq<T>)
    requires |D| <= |D0| <= |D'| && D0[..|D|] == D && D'[..|D0|] == D0
    ensures D'[..|D|] == D
  {
    assert D'[..|D|] == D'[..|D0|][..|D|];
  }

  /** A chain step as its round sees it: at most one row appended, and a component retired only as
      the chain empties. */
  method RoundStep(n: nat, u: int, wtot: real, E: Adjacency, w: map<int, real>, s: map<int, int>,
                   nodes: seq<int>, D: seq<Record>, cc: seq<Component>, chain: seq<int>,
                   ghost G: seq<Adjacency>, ghost W: seq<map<int, real>>)
    returns (r: Result<()>, u': int, E': Adjacency, w': map<int, real>, s': map<int, int>,
             nodes': seq<int>, D': seq<Record>, cc': seq<Component>, chain': seq<int>,
             ghost G': seq<Adjacency>, ghost W': seq<map<int, real>>)
    requires Building(n, u, wtot, E, w, s, nodes, D, cc) && AllFinite(D) && ChainBelowTop(chain) && chain != []
    requires Reducible(n, u, wtot, E, w, D, chain) && Follows(n, wtot, E, w, D, G, W)
    requires SizesKept(n, s, D, cc)
    ensures r.Success? ==> Ready(n, u', wtot, E', w', s', nodes', D', cc', chain', G', W') && G'[0] == G[0] && W'[0] == W[0]
    ensures r.Success? ==> SizesKept(n, s', D', cc')
    ensures r.Success? ==> |nodes'| <= |nodes| && (chain' == [] ==> |nodes'| < |nodes|)
    ensures r.Success? ==> |D| <= |D'| <= |D| + 1 && D'[..|D|] == D
    ensures r.Success? ==> |cc| <= |cc'| <= |cc| + 1 && cc'[..|cc|] == cc && (chain' != [] ==> |cc'| == |cc|)
  {
    var b;
    r, b, u', E', w', s', nodes', D', cc', chain', G', W' := ChainStep(n, u, wtot, E, w, s, nodes, D, cc, chain, G, W);
    if r.Success? {
      StepExtends(n, u, wtot, E, w, s, nodes, D, cc, chain, chain[|chain| - 1], b,
                  u', E', w', s', nodes', D', cc', chain');
      StepKeepsSizes(n, u, wtot, E, w, s, nodes, D, cc, chain, chain[|chain| - 1], b,
                     u', E', w', s', nodes', D', cc', chain');
    }
  }

  /** One round of the `while n_nodes > 0` loop of `paris`: the chain starts at the first live
      node and steps run until it is empty, which happens after a merge or a retirement. At most
      fuel steps run. The rows of the round extend the trace of the merges, and a retirement, which
      empties the chain, ends the round, so a round retires at most one component. */
  method ChainRound(n: nat, u: int, wtot: real, E: Adjacency, w: map<int, real>, s: map<int, int>,
                    nodes: seq<int>, D: seq<Record>, cc: seq<Component>, fuel: nat,
                    ghost G: seq<Adjacency>, ghost W: seq<map<int, real>>)
    returns (r: Result<()>, u': int, E': Adjacency, w': map<int, real>, s': map<int, int>,
             nodes': seq<int>, D': seq<Record>, cc': seq<Component>, fuel': nat,
             ghost G': seq<Adjacency>, ghost W': seq<map<int, real>>)
    requires Building(n, u, wtot, E, w, s, nodes, D, cc) && nodes != [] && AllFinite(D)
    requires Reducible(n, u, wtot, E, w, D, []) && Follows(n, wtot, E, w, D, G, W) && SizesKept(n, s, D, cc)
    ensures r.Success? ==> Building(n, u', wtot, E', w', s', nodes', D', cc') && SizesKept(n, s', D', cc')
    ensures r.Success? ==> |nodes'| < |nodes| && AllFinite(D') && Reducible(n, u', wtot, E', w', D', [])
    ensures r.Success? ==> |D| <= |D'| && D'[..|D|] == D && |cc| <= |cc'| <= |cc| + 1 && cc'[..|cc|] == cc
    ensures r.Success? ==> |nodes| - |nodes'| == (|D'| - |D|) + (|cc'| - |cc|)
    ensures r.Success? ==> Follows(n, wtot, E', w', D', G', W') && G'[0] == G[0] && W'[0] == W[0]
  {
    u', E', w', s', nodes', D', cc', fuel', G', W' := u, E, w, s, nodes, D, cc, fuel, G, W;
    var chain := [nodes[0]];
    StartChainReducible(n, u, wtot, E, w, s, nodes, D, cc);
    while chain != []
      invariant Building(n, u', wtot, E', w', s', nodes', D', cc')
      invariant AllFinite(D') && ChainBelowTop(chain) && Reducible(n, u', wtot, E', w', D', chain)
      invariant |nodes'| <= |nodes| && (chain == [] ==> |nodes'| < |nodes|)
      invariant |D| <= |D'| && D'[..|D|] == D
      invariant |cc| <= |cc'| <= |cc| + 1 && cc'[..|cc|] == cc && (chain != [] ==> |cc'| == |cc|)
      invariant Follows(n, wtot, E', w', D', G', W') && G'[0] == G[0] && W'[0] == W[0]
      invariant SizesKept(n, s', D', cc')
      decreases fuel'
    {
      if fuel' == 0 {
        return Failure("out of fuel"), u', E', w', s', nodes', D', cc', fuel', G', W';
      }
      fuel' := fuel' - 1;
      ghost var D0, cc0 := D', cc';
      r, u', E', w', s', nodes', D', cc', chain, G', W' := RoundStep(n, u', wtot, E', w', s', nodes', D', cc', chain, G', W');
      if r.Failure? {
        return;
      }
      PrefixKept(D, D0, D');
      PrefixKept(cc, cc0, cc');
    }
    r := Success(());
  }

  /** `{u: 1 for u in range(n_nodes)}` */
  function Units(n: nat): (m: map<int, int>)
    ensures m.Keys == Upto(n) && forall x :: x in m ==> m[x] == 1
  {
    if n == 0 then map[] else Units(n - 1)[n - 1 := 1]
  }

  /** The start of `paris`: the node weights and total weight, every node of size 1, the graph as
      an adjacency map, and the node list 0..n-1. */
  method StartState(n: nat, edges: seq<Edge>)
    returns (wtot: real, E: Adjacency, w: map<int, real>, s: map<int, int>, nodes: seq<int>)
    requires ValidGraph(n, edges)
    ensures Building(n, n, wtot, E, w, s, nodes, [], []) && Reducible(n, n, wtot, E, w, [], [])
    ensures E == EdgeMap(edges) && nodes == Range(0, n) && wtot == TotalWeight(edges)
    ensures SizesKept(n, s, [], [])
    ensures forall x :: 0 <= x < n ==> x in w && w[x] == Incident(edges, x)
  {
    w, wtot := InitialWeights(n, edges);
    s := Units(n);
    E := EdgeMap(edges);
    nodes := Range(0, n);
    StartCarried(n, edges, w, wtot, s);
    StartBuilding(n, wtot, E, w, s);
    StartReducible(n, edges, w, wtot);
    StartSizesKept(n, s);
  }

  /** The `while n_nodes > 0` loop of `paris`: from the graph on 0..n-1, the merge rows and the
      finished components in discovery order. The ghost G and W trace the rows from the input graph
      and the initial node weights down to the empty graph. Every row and every component carries the
      number of leaves under its node. The rounds run at most fuel chain steps in all; their
      termination rests on the reducibility of the Paris distance. */
  method ChainLoop(n: nat, edges: seq<Edge>, fuel: nat)
    returns (r: Result<(seq<Record>, seq<Component>)>, ghost G: seq<Adjacency>, ghost W: seq<map<int, real>>)
    requires ValidGraph(n, edges)
    ensures r.Success? ==> Finished(n, r.value.0, r.value.1)
    ensures r.Success? ==> AllFinite(r.value.0) && RowsNoFarther(n, r.value.0)
    ensures r.Success? ==> Traced(n, TotalWeight(edges), r.value.0, G, W)
    ensures r.Success? ==> G[0] == EdgeMap(edges) && G[|r.value.0|] == map[]
    ensures r.Success? ==> forall x :: 0 <= x < n ==> x in W[0] && W[0][x] == Incident(edges, x)
    ensures r.Success? ==> RowSizes(n, r.value.0) && ComponentSizes(n, r.value.0, r.value.1)
    ensures r.Success? ==> forall t :: 0 <= t < |r.value.0| ==> r.value.0[t].size == |Under(n, r.value.0, n + t)|
    ensures r.Success? ==> forall i :: 0 <= i < |r.value.1| ==> r.value.1[i].1 == |Under(n, r.value.0, r.value.1[i].0)|
  {
    var wtot, E, w, s, nodes := StartState(n, edges);
    var dendrogram: seq<Record> := [];
    var cc: seq<Component> := [];
    var u := n;
    var steps := fuel;
    G, W := [E], [w];
    while |nodes| > 0
      invariant Building(n, u, wtot, E, w, s, nodes, dendrogram, cc) && AllFinite(dendrogram)
      invariant Reducible(n, u, wtot, E, w, dendrogram, [])
      invariant Follows(n, wtot, E, w, dendrogram, G, W) && G[0] == EdgeMap(edges)
      invariant forall x :: 0 <= x < n ==> x in W[0] && W[0][x] == Incident(edges, x)
      invariant SizesKept(n, s, dendrogram, cc)
      decreases |nodes|
    {
      var round;
      round, u, E, w, s, nodes, dendrogram, cc, steps, G, W :=
        ChainRound(n, u, wtot, E, w, s, nodes, dendrogram, cc, steps, G, W);
      if round.Failure? {
        return Failure(round.error), G, W;
      }
    }
    Drained(n, u, wtot, E, w, s, nodes, dendrogram, cc);
    SizesCounted(n, dendrogram, cc);
    return Success((dendrogram, cc)), G, W;
  }

  // ---------------------------------------------------------------------------------------------
  // Joining the components

  /** Row k of the joins: the last component, or the node the previous join created, merged at
      infinite distance with component k, with the sizes of all of them so far. */
  ghost predicate Joined(n: nat, D: seq<Record>, cc: seq<Component>, rows: seq<Record>)
    requires cc != []
  {
    && |rows| == |D| + |cc| - 1 && rows[..|D|] == D
    && forall k :: 0 <= k < |cc| - 1 ==>
         rows[|D| + k] == Record(if k == 0 then cc[|cc| - 1].0 else n + |D| + k - 1, cc[k].0, Inf,
                                 cc[|cc| - 1].1 + ComponentSum(cc[..k + 1]))
  }

  /** Every row after the chain rows is a join at infinite distance. */
  lemma JoinsAtInfinity(n: nat, D: seq<Record>, cc: seq<Component>, rows: seq<Record>)
    requires cc != [] && Joined(n, D, cc, rows)
    ensures forall t :: |D| <= t < |rows| ==> rows[t].dist == Inf
  {
    forall t | |D| <= t < |rows| ensures rows[t].dist == Inf {
      var k := t - |D|;
      assert 0 <= k < |cc| - 1 && rows[|D| + k] == rows[t];
      assert rows[|D| + k].right == cc[k].0;
    }
  }

  /** The joins close the hierarchy: n - 1 rows, none referring to a later node or merging an id
      twice, and the last join, when there is one, of size n. */
  lemma JoinedWellFormed(n: nat, D: seq<Record>, cc: seq<Component>, rows: seq<Record>)
    requires Finished(n, D, cc) && cc != [] && Joined(n, D, cc, rows)
    ensures |rows| + 1 == n && WellFormed(rows)
    ensures |cc| > 1 ==> rows[|rows| - 1].size == n
  {
    JoinedBounded(n, D, cc, rows);
    JoinedDistinct(n, D, cc, rows);
    if |cc| > 1 {
      JoinRow(n, D, cc, rows, |cc| - 2);
      assert cc[..|cc| - 1 + 1] == cc;
    }
  }

  lemma JoinedBounded(n: nat, D: seq<Record>, cc: seq<Component>, rows: seq<Record>)
    requires Finished(n, D, cc) && cc != [] && Joined(n, D, cc, rows)
    ensures forall t :: 0 <= t < |rows| ==>
              0 <= rows[t].left < n + t && 0 <= rows[t].right < n + t && rows[t].left != rows[t].right
  {
    forall t | 0 <= t < |rows|
      ensures 0 <= rows[t].left < n + t && 0 <= rows[t].right < n + t && rows[t].left != rows[t].right
    {
      if t < |D| {
        assert rows[t] == D[t];
      } else {
        JoinRow(n, D, cc, rows, t - |D|);
      }
    }
  }

  lemma JoinedDistinct(n: nat, D: seq<Record>, cc: seq<Component>, rows: seq<Record>)
    requires Finished(n, D, cc) && cc != [] && Joined(n, D, cc, rows)
    ensures forall r, t :: 0 <= r < t < |rows| ==> !Uses(rows[t], rows[r].left) && !Uses(rows[t], rows[r].right)
  {
    var m := |D|;
    forall r, t | 0 <= r < t < |rows| ensures !Uses(rows[t], rows[r].left) && !Uses(rows[t], rows[r].right) {
      if t < m {
        assert rows[t] == D[t] && rows[r] == D[r];
      } else if r < m {
        assert rows[r] == D[r];
        JoinRow(n, D, cc, rows, t - m);
      } else {
        JoinRow(n, D, cc, rows, t - m);
        JoinRow(n, D, cc, rows, r - m);
      }
    }
  }

  /** The chain rows keep every child no farther than its parent, and the joins are at infinite
      distance, so the joined rows are ready for the reordering. */
  lemma JoinedChildrenNoFarther(n: nat, D: seq<Record>, cc: seq<Component>, rows: seq<Record>)
    requires Finished(n, D, cc) && cc != [] && Joined(n, D, cc, rows) && RowsNoFarther(n, D)
    requires |rows| + 1 == n && Bounded(rows)
    ensures ChildrenNoFarther(rows)
  {
    forall t | 0 <= t < |rows|
      ensures && (rows[t].left > |rows| ==> AtMost(rows[rows[t].left - |rows| - 1].dist, rows[t].dist))
              && (rows[t].right > |rows| ==> AtMost(rows[rows[t].right - |rows| - 1].dist, rows[t].dist))
    {
      if t < |D| {
        assert rows[t] == D[t];
        if D[t].left >= n {
          assert rows[D[t].left - n] == D[D[t].left - n];
        }
        if D[t].right >= n {
          assert rows[D[t].right - n] == D[D[t].right - n];
        }
      } else {
        JoinRow(n, D, cc, rows, t - |D|);
      }
    }
  }

  /** Join row k merges ids below the node it creates: the last component or the previous join, and
      component k. */
  lemma JoinRow(n: nat, D: seq<Record>, cc: seq<Component>, rows: seq<Record>, k: int)
    requires Finished(n, D, cc) && cc != [] && Joined(n, D, cc, rows) && 0 <= k < |cc| - 1
    ensures var row := rows[|D| + k];
            && row.right == cc[k].0 && 0 <= row.right < n + |D| && row.dist == Inf
            && (k == 0 ==> row.left == cc[|cc| - 1].0 && 0 <= row.left < n + |D|)
            && (k > 0 ==> row.left == n + |D| + k - 1)
            && row.size == cc[|cc| - 1].1 + ComponentSum(cc[..k + 1])
            && (k == 0 ==> row.left != row.right && forall t :: 0 <= t < |D| ==> !Uses(D[t], row.left))
            && forall t :: 0 <= t < |D| ==> !Uses(D[t], row.right)
  {
  }

  /** Join row k has the size of the two ids it merges: the last component or the previous join,
      and component k. */
  lemma JoinSize(n: nat, D: seq<Record>, cc: seq<Component>, rows: seq<Record>, k: int)
    requires Finished(n, D, cc) && cc != [] && Joined(n, D, cc, rows) && 0 <= k < |cc| - 1
    requires RowSizes(n, D) && ComponentSizes(n, D, cc)
    ensures SizedRow(n, rows, |D| + k)
  {
    var row := rows[|D| + k];
    JoinRow(n, D, cc, rows, k);
    forall x | 0 <= x < n + |D| ensures SizeOf(n, rows, x) == SizeOf(n, D, x) {
      if x >= n {
        assert rows[x - n] == rows[..|D|][x - n];
      }
    }
    assert cc[..k + 1][..k] == cc[..k];
    assert ComponentSum(cc[..k + 1]) == ComponentSum(cc[..k]) + cc[k].1;
    if k > 0 {
      JoinRow(n, D, cc, rows, k - 1);
      assert SizeOf(n, rows, row.left) == rows[|D| + k - 1].size;
    } else {
      assert cc[..k] == [];
    }
  }

  /** Every row of the joined hierarchy has the size of the two ids it merges. */
  lemma JoinedSizes(n: nat, D: seq<Record>, cc: seq<Component>, rows: seq<Record>)
    requires Finished(n, D, cc) && cc != [] && Joined(n, D, cc, rows)
    requires RowSizes(n, D) && ComponentSizes(n, D, cc)
    ensures RowSizes(n, rows)
  {
    forall t | 0 <= t < |rows| ensures SizedRow(n, rows, t) {
      if t < |D| {
        var row := rows[t];
        assert row == D[t] && SizedRow(n, D, t);
        assert SizeOf(n, rows, row.left) == SizeOf(n, D, row.left) by {
          if row.left >= n {
            assert rows[row.left - n] == D[row.left - n];
          }
        }
        assert SizeOf(n, rows, row.right) == SizeOf(n, D, row.right) by {
          if row.right >= n {
            assert rows[row.right - n] == D[row.right - n];
          }
        }
      } else {
        JoinSize(n, D, cc, rows, t - |D|);
      }
    }
  }

  /** Once joined, every size counts the leaves under the node of its row. */
  lemma JoinedSizesCount(n: nat, D: seq<Record>, cc: seq<Component>, rows: seq<Record>)
    requires Finished(n, D, cc) && cc != [] && Joined(n, D, cc, rows)
    requires RowSizes(n, D) && ComponentSizes(n, D, cc)
    ensures |rows| + 1 == n && WellFormed(rows) && SizesCountLeaves(rows)
  {
    JoinedWellFormed(n, D, cc, rows);
    JoinedSizes(n, D, cc, rows);
    SizesComplete(rows);
  }

  /** A complete hierarchy whose rows have the sizes of their operands counts its leaves. */
  lemma SizesComplete(rows: seq<Record>)
    requires WellFormed(rows) && RowSizes(|rows| + 1, rows)
    ensures SizesCountLeaves(rows)
  {
    var n := |rows| + 1;
    forall t | 0 <= t < |rows| ensures CountsLeaves(rows, t) {
      UnderComplete(rows, n + t);
      SizeCountsLeaves(n, rows, n + t);
      assert SizeOf(n, rows, n + t) == rows[t].size;
    }
  }

  /** The end of `paris` before the reordering: the last component is popped and joined to each
      other component in turn, at infinite distance, each join creating the next node. With no
      component, `cc.pop()` raises an IndexError. */
  method JoinComponents(n: nat, D: seq<Record>, cc: seq<Component>) returns (r: Result<seq<Record>>)
    requires Finished(n, D, cc)
    ensures r.Failure? <==> cc == []
    ensures r.Success? ==> cc != [] && Joined(n, D, cc, r.value)
  {
    if cc == [] {
      return Failure("IndexError");
    }
    var last := cc[|cc| - 1];
    var a, size := last.0, last.1;
    var rows := D;
    var u := n + |D|;
    for k := 0 to |cc| - 1
      invariant |rows| == |D| + k && rows[..|D|] == D
      invariant u == n + |D| + k && a == (if k == 0 then last.0 else u - 1)
      invariant size == last.1 + ComponentSum(cc[..k])
      invariant forall j :: 0 <= j < k ==>
                  rows[|D| + j] == Record(if j == 0 then last.0 else n + |D| + j - 1, cc[j].0, Inf,
                                          last.1 + ComponentSum(cc[..j + 1]))
    {
      var (b, t) := cc[k];
      assert cc[..k + 1][..k] == cc[..k];
      size := size + t;
      rows := rows + [Record(a, b, Inf, size)];
      a := u;
      u := u + 1;
    }
    return Success(rows);
  }

  // ---------------------------------------------------------------------------------------------
  // paris

  /** The end of `paris`: the components joined to the chain rows D, and `reorder_dendrogram` of
      the result. With no component `cc.pop()` raises an IndexError, and with a single node the
      empty array has no distance column to sort, another IndexError. */
  method JoinAndReorder(n: nat, D: seq<Record>, cc: seq<Component>) returns (r: Result<seq<Record>>, ghost raw: seq<Record>)
    requires Finished(n, D, cc) && RowsNoFarther(n, D) && RowSizes(n, D) && ComponentSizes(n, D, cc)
    ensures n < 2 ==> r.Failure?
    ensures r.Success? ==> |raw| + 1 == n && WellFormed(raw) && NamesNodes(raw) && r.value == Reorder(raw)
    ensures r.Success? ==> |r.value| == n - 1
    ensures r.Success? ==> forall i, j :: 0 <= i < j < |r.value| ==> AtMost(r.value[i].dist, r.value[j].dist)
    ensures r.Success? ==> ChildrenNoFarther(raw) && WellFormed(r.value)
    ensures r.Success? ==> forall x :: 0 <= x <= Root(raw) ==>
              LeavesUnder(r.value, NewId(n, SortOrder(raw), x)) == LeavesUnder(raw, x)
    ensures r.Success? ==> SizesCountLeaves(raw) && SizesCountLeaves(r.value)
    ensures r.Success? ==> |D| <= |raw| && raw[..|D|] == D
    ensures r.Success? ==> forall t :: |D| <= t < |raw| ==> raw[t].dist == Inf
  {
    raw := [];
    var joined := JoinComponents(n, D, cc);
    if joined.Failure? {
      return Failure(joined.error), raw;
    }
    var rows := joined.value;
    raw := rows;
    JoinedWellFormed(n, D, cc, rows);
    if |rows| == 0 {
      return Failure("IndexError"), raw;
    }
    JoinedReordered(n, D, cc, rows);
    JoinsAtInfinity(n, D, cc, rows);
    r := Success(Reorder(rows));
  }

  /** `paris`: the chain loop, the joins of the components, and `reorder_dendrogram` of the rows.
      The rows before the reordering are returned as raw; the first of them are the chainRows of
      the chain loop, traced by G and W from the input graph down to the empty graph, and the others
      are the joins at infinite distance. Every size counts the leaves under the node of its row. */
  method Paris(n: nat, edges: seq<Edge>, fuel: nat)
    returns (r: Result<seq<Record>>, ghost raw: seq<Record>, ghost chainRows: seq<Record>,
             ghost G: seq<Adjacency>, ghost W: seq<map<int, real>>)
    requires ValidGraph(n, edges)
    ensures n < 2 ==> r.Failure?
    ensures r.Success? ==> |raw| + 1 == n && WellFormed(raw) && NamesNodes(raw) && r.value == Reorder(raw)
    ensures r.Success? ==> |r.value| == n - 1
    ensures r.Success? ==> forall i, j :: 0 <= i < j < |r.value| ==> AtMost(r.value[i].dist, r.value[j].dist)
    ensures r.Success? ==> ChildrenNoFarther(raw) && WellFormed(r.value)
    ensures r.Success? ==> forall x :: 0 <= x <= Root(raw) ==>
              LeavesUnder(r.value, NewId(n, SortOrder(raw), x)) == LeavesUnder(raw, x)
    ensures r.Success? ==> SizesCountLeaves(raw) && SizesCountLeaves(r.value)
    ensures r.Success? ==> |chainRows| <= |raw| && raw[..|chainRows|] == chainRows
    ensures r.Success? ==> forall t :: |chainRows| <= t < |raw| ==> raw[t].dist == Inf
    ensures r.Success? ==> Traced(n, TotalWeight(edges), chainRows, G, W)
    ensures r.Success? ==> G[0] == EdgeMap(edges) && G[|chainRows|] == map[]
    ensures r.Success? ==> forall x :: 0 <= x < n ==> x in W[0] && W[0][x] == Incident(edges, x)
  {
    var built;
    built, G, W := ChainLoop(n, edges, fuel);
    if built.Failure? {
      return Failure(built.error), [], [], G, W;
    }
    chainRows := built.value.0;
    r, raw := JoinAndReorder(n, built.value.0, built.value.1);
  }

  /** What `reorder_dendrogram` makes of the joined rows: n - 1 rows sorted by distance, well formed,
      with the leaves under each node kept under its new id. */
  lemma JoinedReordered(n: nat, D: seq<Record>, cc: seq<Component>, rows: seq<Record>)
    requires Finished(n, D, cc) && cc != [] && Joined(n, D, cc, rows) && RowsNoFarther(n, D) && rows != []
    requires RowSizes(n, D) && ComponentSizes(n, D, cc)
    ensures |rows| + 1 == n && WellFormed(rows) && NamesNodes(rows)
    ensures |Reorder(rows)| == n - 1
    ensures forall i, j :: 0 <= i < j < |Reorder(rows)| ==> AtMost(Reorder(rows)[i].dist, Reorder(rows)[j].dist)
    ensures ChildrenNoFarther(rows) && WellFormed(Reorder(rows))
    ensures forall x :: 0 <= x <= Root(rows) ==>
              LeavesUnder(Reorder(rows), NewId(n, SortOrder(rows), x)) == LeavesUnder(rows, x)
    ensures SizesCountLeaves(rows) && SizesCountLeaves(Reorder(rows))
  {
    JoinedWellFormed(n, D, cc, rows);
    JoinedChildrenNoFarther(n, D, cc, rows);
    JoinedSizesCount(n, D, cc, rows);
    ReorderKeepsSizes(rows);
    ReorderWellFormed(rows);
    ReorderSorted(rows);
    forall x | 0 <= x <= Root(rows) ensures LeavesUnder(Reorder(rows), NewId(n, SortOrder(rows), x)) == LeavesUnder(rows, x) {
      ReorderKeepsLeaves(rows, x);
    }
  }
}
