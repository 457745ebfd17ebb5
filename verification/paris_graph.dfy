/** The graph side of `paris`: the weighted graph on integer node ids, the node weights and total
    weight it starts from, the nearest neighbour of a node under the Paris distance, and the
    contraction of two nodes into a fresh one. */
module ParisGraph {
  import opened Dendrograms
  import opened Collections

  /** One undirected edge `(x, y)` with its `'weight'`. */
  datatype Edge = Edge(x: int, y: int, weight: real)

  predicate SamePair(e: Edge, f: Edge) {
    (e.x == f.x && e.y == f.y) || (e.x == f.y && e.y == f.x)
  }

  /** A simple weighted graph on the nodes 0..n-1 (after `convert_node_labels_to_integers`): every
      edge joins two of them with a positive weight, and no pair of nodes has two edges. */
  ghost predicate ValidGraph(n: nat, edges: seq<Edge>) {
    && (forall i :: 0 <= i < |edges| ==> 0 <= edges[i].x < n && 0 <= edges[i].y < n && edges[i].weight > 0.0)
    && (forall i, j :: 0 <= i < j < |edges| ==> !SamePair(edges[i], edges[j]))
  }

  // ---------------------------------------------------------------------------------------------
  // Initial weights

  /** What edge e adds to the weight of node x: its weight once per end at x. */
  function EndWeight(e: Edge, x: int): real {
    (if e.x == x then e.weight else 0.0) + (if e.y == x then e.weight else 0.0)
  }

  /** The weight of node x: the sum of the weights of its incident edges, a self-loop twice. */
  function Incident(edges: seq<Edge>, x: int): real {
    if edges == [] then 0.0 else Incident(edges[..|edges| - 1], x) + EndWeight(edges[|edges| - 1], x)
  }

  /** The sum of the edge weights. */
  function Total(edges: seq<Edge>): real {
    if edges == [] then 0.0 else Total(edges[..|edges| - 1]) + edges[|edges| - 1].weight
  }

  /** The node ids 0..n-1. */
  function Upto(n: nat): (r: set<int>)
    ensures forall x :: x in r <==> 0 <= x < n
  {
    if n == 0 then {} else Upto(n - 1) + {n - 1}
  }

  /** `{u: 0 for u in range(n)}` */
  function Zeros(n: nat): (m: map<int, real>)
    ensures m.Keys == Upto(n) && forall x :: x in m ==> m[x] == 0.0
  {
    if n == 0 then map[] else Zeros(n - 1)[n - 1 := 0.0]
  }

  /** `w[0] + ... + w[k-1]` for the initial weights. */
  function IncidentSum(edges: seq<Edge>, k: nat): real {
    if k == 0 then 0.0 else IncidentSum(edges, k - 1) + Incident(edges, k - 1)
  }

  /** `wtot` of `paris`: every edge weight counted at both ends. */
  function TotalWeight(edges: seq<Edge>): real {
    2.0 * Total(edges)
  }

  /** The first loop of `paris`: node weights and total weight from the edge list. */
  method InitialWeights(n: nat, edges: seq<Edge>) returns (w: map<int, real>, wtot: real)
    ensures w.Keys == Upto(n)
    ensures forall x :: 0 <= x < n ==> w[x] == Incident(edges, x)
    ensures wtot == 2.0 * Total(edges)
  {
    w := Zeros(n);
    wtot := 0.0;
    for i := 0 to |edges|
      invariant WeightsUpTo(n, edges, i, w, wtot)
    {
      w, wtot := AddEdgeWeight(n, edges, i, w, wtot);
    }
    assert edges[..|edges|] == edges;
  }

  /** The weights after the first i edges of the list. */
  ghost predicate WeightsUpTo(n: nat, edges: seq<Edge>, i: nat, w: map<int, real>, wtot: real)
    requires i <= |edges|
  {
    && w.Keys == Upto(n)
    && (forall x :: 0 <= x < n ==> w[x] == Incident(edges[..i], x))
    && wtot == 2.0 * Total(edges[..i])
  }

  /** One round of the first loop of `paris`: edge i adds its weight to both ends, and twice to the
      total. */
  method AddEdgeWeight(n: nat, edges: seq<Edge>, i: nat, w: map<int, real>, wtot: real)
    returns (w': map<int, real>, wtot': real)
    requires i < |edges| && WeightsUpTo(n, edges, i, w, wtot)
    ensures WeightsUpTo(n, edges, i + 1, w', wtot')
  {
    var e := edges[i];
    w' := w;
    if e.x in w' {
      w' := w'[e.x := w'[e.x] + e.weight];
    }
    if e.y in w' {
      w' := w'[e.y := w'[e.y] + e.weight];
    }
    wtot' := wtot + 2.0 * e.weight;
    forall x | 0 <= x < n ensures w'[x] == Incident(edges[..i + 1], x) {
      IncidentNext(edges, i, x);
    }
    IncidentNext(edges, i, 0);
  }

  /** Edge i extends the sums over the first i edges. */
  lemma IncidentNext(edges: seq<Edge>, i: nat, x: int)
    requires i < |edges|
    ensures Incident(edges[..i + 1], x) == Incident(edges[..i], x) + EndWeight(edges[i], x)
    ensures Total(edges[..i + 1]) == Total(edges[..i]) + edges[i].weight
  {
    assert edges[..i + 1][..i] == edges[..i];
  }

  /** What one edge between nodes of 0..k-1 adds to the first k node weights: twice its weight. */
  lemma {:induction false} EndWeightSum(e: Edge, k: nat)
    requires 0 <= e.x && 0 <= e.y
    ensures SumEnds(e, k) == (if e.x < k then e.weight else 0.0) + (if e.y < k then e.weight else 0.0)
  {
    if k > 0 {
      EndWeightSum(e, k - 1);
    }
  }

  function SumEnds(e: Edge, k: nat): real {
    if k == 0 then 0.0 else SumEnds(e, k - 1) + EndWeight(e, k - 1)
  }

  lemma {:induction false} IncidentSumStep(edges: seq<Edge>, e: Edge, k: nat)
    ensures IncidentSum(edges + [e], k) == IncidentSum(edges, k) + SumEnds(e, k)
  {
    if k > 0 {
      IncidentSumStep(edges, e, k - 1);
      assert (edges + [e])[..|edges + [e]| - 1] == edges;
    }
  }

  /** `wtot` is the sum of the node weights: each edge counts once per end. */
  lemma {:induction false} TotalIsSumOfWeights(n: nat, edges: seq<Edge>)
    requires ValidGraph(n, edges)
    ensures IncidentSum(edges, n) == 2.0 * Total(edges)
  {
    if edges != [] {
      var front, e := edges[..|edges| - 1], edges[|edges| - 1];
      assert edges == front + [e];
      ValidFront(n, edges);
      TotalIsSumOfWeights(n, front);
      IncidentSumStep(front, e, n);
      EndWeightSum(e, n);
      assert Total(edges) == Total(front) + e.weight;
    } else {
      NoEdgesNoWeight(n);
    }
  }

  lemma {:induction false} NoEdgesNoWeight(k: nat)
    ensures IncidentSum([], k) == 0.0
  {
    if k > 0 {
      NoEdgesNoWeight(k - 1);
    }
  }

  /** With positive edge weights the total weight is positive as soon as there is an edge. */
  lemma {:induction false} TotalPositive(n: nat, edges: seq<Edge>)
    requires ValidGraph(n, edges)
    ensures edges != [] ==> Total(edges) > 0.0
    ensures edges == [] ==> Total(edges) == 0.0
  {
    if edges != [] {
      var front := edges[..|edges| - 1];
      ValidFront(n, edges);
      TotalPositive(n, front);
    }
  }

  // ---------------------------------------------------------------------------------------------
  // The graph as an adjacency map

  /** `graph_copy[x][y]['weight']`, stored for both orientations of an edge. */
  type Adjacency = map<(int, int), real>

  /** The graph of the edge list, without its self-loops: a self-loop only counts in the node
      weights, since the distance skips it and a contraction drops it. */
  function EdgeMap(edges: seq<Edge>): (E: Adjacency)
    ensures forall k :: k in E ==> k.0 != k.1
  {
    if edges == [] then map[]
    else
      var e := edges[|edges| - 1];
      var E' := EdgeMap(edges[..|edges| - 1]);
      if e.x == e.y then E' else E'[(e.x, e.y) := e.weight][(e.y, e.x) := e.weight]
  }

  /** The adjacency of a graph on the nodes listed in live: each edge stored both ways with the same
      positive weight, between two different live nodes. */
  ghost predicate GraphOn(E: Adjacency, live: set<int>) {
    forall k :: k in E ==>
      && k.0 in live && k.1 in live && k.0 != k.1 && E[k] > 0.0
      && (k.1, k.0) in E && E[(k.1, k.0)] == E[k]
  }

  lemma {:induction false} EdgeMapIsGraph(n: nat, edges: seq<Edge>)
    requires ValidGraph(n, edges)
    ensures GraphOn(EdgeMap(edges), Upto(n))
  {
    if edges != [] {
      var front, e := edges[..|edges| - 1], edges[|edges| - 1];
      ValidFront(n, edges);
      EdgeMapIsGraph(n, front);
      if e.x != e.y {
        AddEdgeIsGraph(EdgeMap(front), Upto(n), e.x, e.y, e.weight);
      }
    }
  }

  /** The edges but the last form a valid graph too, and the last joins two nodes with a positive
      weight. */
  lemma ValidFront(n: nat, edges: seq<Edge>)
    requires ValidGraph(n, edges) && edges != []
    ensures ValidGraph(n, edges[..|edges| - 1])
    ensures var e := edges[|edges| - 1]; 0 <= e.x < n && 0 <= e.y < n && e.weight > 0.0
  {
  }

  /** Storing an edge both ways between two different live nodes with a positive weight keeps a graph. */
  lemma AddEdgeIsGraph(E: Adjacency, live: set<int>, x: int, y: int, wt: real)
    requires GraphOn(E, live) && x in live && y in live && x != y && wt > 0.0
    ensures GraphOn(E[(x, y) := wt][(y, x) := wt], live)
  {
  }

  /** `graph_copy.neighbors(a)` */
  function Neighbours(E: Adjacency, a: int): (N: set<int>)
    ensures forall v :: v in N <==> (a, v) in E
  {
    set k | k in E.Keys && k.0 == a :: k.1
  }

  /** `graph_copy[x][y]['weight']`, 0 for a missing edge. */
  function Weight(E: Adjacency, x: int, y: int): real {
    if (x, y) in E then E[(x, y)] else 0.0
  }

  // ---------------------------------------------------------------------------------------------
  // Nearest neighbour

  /** The Paris distance `w[v] * w[a] / weight(a, v) / wtot` of an edge. */
  function PairDistance(E: Adjacency, w: map<int, real>, wtot: real, a: int, v: int): real
    requires (a, v) in E && E[(a, v)] != 0.0 && wtot != 0.0 && a in w && v in w
  {
    Distance(w[v], w[a], E[(a, v)], wtot)
  }

  /** `w[v] * w[a] / weight / wtot` */
  function Distance(wv: real, wa: real, weight: real, wtot: real): real
    requires weight != 0.0 && wtot != 0.0
  {
    wv * wa / weight / wtot
  }

  /** What the nearest-neighbour search needs of the state: positive weights, a non-zero total
      weight when there is an edge, and a node weight for every node with an edge. */
  ghost predicate Searchable(E: Adjacency, w: map<int, real>, wtot: real) {
    && (forall k :: k in E ==> E[k] > 0.0 && k.0 in w && k.1 in w)
    && (E != map[] ==> wtot != 0.0)
  }

  /** b is the neighbour of a at the smallest distance, the smallest id among equally near ones. */
  ghost predicate IsNearest(E: Adjacency, w: map<int, real>, wtot: real, a: int, b: int)
    requires Searchable(E, w, wtot)
  {
    && (a, b) in E
    && (forall v :: (a, v) in E ==> PairDistance(E, w, wtot, a, b) <= PairDistance(E, w, wtot, a, v))
    && (forall v :: (a, v) in E && PairDistance(E, w, wtot, a, v) == PairDistance(E, w, wtot, a, b) ==> b <= v)
  }

  /** The next neighbour a loop over a set of neighbours visits; the order is not modelled. */
  method Pick(todo: set<int>) returns (v: int)
    requires todo != {}
    ensures v in todo
  {
    NonEmpty(todo);
    v :| v in todo;
  }

  /** The neighbour loop of `paris`: `b` and `d_min` for node a, `(-1, inf)` when a has no
      neighbour. */
  method NearestNeighbour(E: Adjacency, w: map<int, real>, wtot: real, a: int) returns (b: int, dMin: Dist)
    requires Searchable(E, w, wtot) && forall k :: k in E ==> k.0 != k.1 && k.1 >= 0
    ensures b == -1 <==> Neighbours(E, a) == {}
    ensures b == -1 ==> dMin == Inf
    ensures b != -1 ==> IsNearest(E, w, wtot, a, b) && dMin == Finite(PairDistance(E, w, wtot, a, b))
  {
    dMin := Inf;
    b := -1;
    var neighbours := Neighbours(E, a);
    var todo := neighbours;
    while todo != {}
      invariant Scanned(E, w, wtot, a, neighbours, todo, b, dMin)
      decreases |todo|
    {
      b, dMin, todo := VisitNeighbour(E, w, wtot, a, neighbours, todo, b, dMin);
    }
  }

  /** One round of the neighbour loop: neighbour v is compared with the nearest so far and leaves
      todo. */
  method VisitNeighbour(E: Adjacency, w: map<int, real>, wtot: real, a: int, neighbours: set<int>,
                        todo: set<int>, b: int, dMin: Dist)
    returns (b': int, dMin': Dist, todo': set<int>)
    requires Searchable(E, w, wtot) && forall k :: k in E ==> k.0 != k.1 && k.1 >= 0
    requires Scanned(E, w, wtot, a, neighbours, todo, b, dMin) && todo != {}
    ensures Scanned(E, w, wtot, a, neighbours, todo', b', dMin') && |todo'| < |todo|
  {
    var v :| v in todo;
    b', dMin' := b, dMin;
    if v != a {
      var d := Distance(w[v], w[a], E[(a, v)], wtot);
      assert d == PairDistance(E, w, wtot, a, v);
      if Less(Finite(d), dMin) {
        b' := v;
        dMin' := Finite(d);
      } else if Finite(d) == dMin {
        b' := if b <= v then b else v;
      }
    }
    todo' := todo - {v};
  }

  /** The state of the neighbour loop once the neighbours outside todo are visited: b is the
      nearest of them, smallest first among ties, and d_min its distance; `(-1, inf)` before the
      first visit. */
  ghost predicate Scanned(E: Adjacency, w: map<int, real>, wtot: real, a: int, neighbours: set<int>,
                          todo: set<int>, b: int, dMin: Dist)
    requires Searchable(E, w, wtot)
  {
    && neighbours == Neighbours(E, a)
    && todo <= neighbours
    && (b == -1 <==> todo == neighbours)
    && (b == -1 ==> dMin == Inf)
    && (b != -1 ==> && (a, b) in E && b !in todo
                    && dMin == Finite(PairDistance(E, w, wtot, a, b))
                    && (forall v :: v in neighbours - todo ==> PairDistance(E, w, wtot, a, b) <= PairDistance(E, w, wtot, a, v))
                    && (forall v :: v in neighbours - todo && PairDistance(E, w, wtot, a, v) == PairDistance(E, w, wtot, a, b) ==> b <= v))
  }
  // ---------------------------------------------------------------------------------------------
  // Contraction

  /** `graph_copy.remove_node(x)`: x and its edges go. */
  function RemoveNode(E: Adjacency, x: int): (E': Adjacency)
    ensures forall k :: k in E' <==> k in E && k.0 != x && k.1 != x
    ensures forall k :: k in E' ==> E'[k] == E[k]
  {
    map k | k in E && k.0 != x && k.1 != x :: E[k]
  }

  /** The graph once a and b are contracted into the fresh node u: u is joined to every other
      neighbour v of a or b with weight `weight(a, v) + weight(b, v)`, a and b are gone, and no
      other edge changes. */
  ghost predicate Contracted(E: Adjacency, a: int, b: int, u: int, E': Adjacency) {
    && (forall k :: k in E' ==> k.0 != a && k.0 != b && k.1 != a && k.1 != b)
    && (forall k: (int, int) :: k.0 != u && k.1 != u && k.0 != a && k.0 != b && k.1 != a && k.1 != b ==>
          (k in E' <==> k in E) && (k in E ==> E'[k] == E[k]))
    && (forall v :: (u, v) in E' <==> v != a && v != b && ((a, v) in E || (b, v) in E))
    && (forall v :: (v, u) in E' <==> (u, v) in E')
    && (forall v :: (u, v) in E' ==> E'[(u, v)] == Weight(E, a, v) + Weight(E, b, v) && E'[(v, u)] == E'[(u, v)])
  }

  /** A contraction of an empty graph is empty. */
  lemma ContractedNonEmpty(E: Adjacency, a: int, b: int, u: int, E': Adjacency)
    requires Contracted(E, a, b, u, E')
    ensures E' != map[] ==> E != map[]
  {
    if E' != map[] {
      var k :| k in E';
      if k.0 == u {
        assert (a, k.1) in E || (b, k.1) in E;
      } else if k.1 == u {
        assert (u, k.0) in E';
        assert (a, k.0) in E || (b, k.0) in E;
      } else {
        assert k in E;
      }
    }
  }

  /** The first neighbour loop of the contraction: u joined to each neighbour of a with a's weight. */
  method JoinNeighboursOfA(E: Adjacency, a: int, u: int) returns (E': Adjacency)
    requires forall k :: k in E ==> k.0 != u && k.1 != u
    ensures forall k :: k in E' <==> k in E || (k.0 == u && (a, k.1) in E) || (k.1 == u && (a, k.0) in E)
    ensures forall k :: k in E ==> E'[k] == E[k]
    ensures forall v :: (a, v) in E ==> E'[(u, v)] == E[(a, v)] && E'[(v, u)] == E[(a, v)]
  {
    var neighboursA := Neighbours(E, a);
    E' := E;
    var todo := neighboursA;
    while todo != {}
      invariant todo <= neighboursA
      invariant forall k :: k in E' <==> k in E || (k.0 == u && k.1 in neighboursA - todo) || (k.1 == u && k.0 in neighboursA - todo)
      invariant forall k :: k in E ==> E'[k] == E[k]
      invariant forall v :: v in neighboursA - todo ==> E'[(u, v)] == E[(a, v)] && E'[(v, u)] == E[(a, v)]
      decreases |todo|
    {
      var v := Pick(todo);
      E' := E'[(u, v) := E'[(a, v)]][(v, u) := E'[(a, v)]];
      todo := todo - {v};
    }
  }

  /** The second neighbour loop of the contraction: b's weight added to an edge u already has, or a
      new edge from u with b's weight. */
  method JoinNeighboursOfB(E: Adjacency, b: int, neighboursB: set<int>, u: int) returns (E': Adjacency)
    requires b != u && forall v :: v in neighboursB ==> (b, v) in E && v != u
    requires forall k :: k in E && k.0 == u ==> (k.1, u) in E && E[(k.1, u)] == E[k]
    ensures forall k :: k in E' <==> k in E || (k.0 == u && k.1 in neighboursB) || (k.1 == u && k.0 in neighboursB)
    ensures forall k :: k in E && k.0 != u && k.1 != u ==> E'[k] == E[k]
    ensures forall v :: (u, v) in E' ==>
              && E'[(u, v)] == Weight(E, u, v) + (if v in neighboursB then E[(b, v)] else 0.0)
              && E'[(v, u)] == E'[(u, v)]
  {
    E' := E;
    var todo := neighboursB;
    while todo != {}
      invariant todo <= neighboursB
      invariant forall k :: k in E' <==> k in E || (k.0 == u && k.1 in neighboursB - todo) || (k.1 == u && k.0 in neighboursB - todo)
      invariant forall k :: k in E && k.0 != u && k.1 != u ==> E'[k] == E[k]
      invariant forall v :: (u, v) in E' ==>
                  && E'[(u, v)] == Weight(E, u, v) + (if v in neighboursB - todo then E[(b, v)] else 0.0)
                  && (v, u) in E' && E'[(v, u)] == E'[(u, v)]
      decreases |todo|
    {
      var v := Pick(todo);
      if (u, v) in E' {
        var x := E'[(u, v)] + E'[(b, v)];
        E' := E'[(u, v) := x][(v, u) := x];
      } else {
        E' := E'[(u, v) := E'[(b, v)]][(v, u) := E'[(b, v)]];
      }
      todo := todo - {v};
    }
  }

  /** The contraction step of `paris`: u joined to a's neighbours with a's weights, then b's
      weights added to the edges u already has and the others added, then a and b removed. */
  method Contract(E: Adjacency, a: int, b: int, u: int) returns (E': Adjacency)
    requires a != b && a != u && b != u
    requires forall k :: k in E ==> k.0 != u && k.1 != u && k.0 != k.1
    requires forall k :: k in E ==> (k.1, k.0) in E && E[(k.1, k.0)] == E[k]
    ensures Contracted(E, a, b, u, E')
  {
    var neighboursB := Neighbours(E, b);
    var joinedA := JoinNeighboursOfA(E, a, u);
    var joinedB := JoinNeighboursOfB(joinedA, b, neighboursB, u);
    E' := RemoveNode(joinedB, a);
    E' := RemoveNode(E', b);
    forall v | (u, v) in E' ensures E'[(u, v)] == Weight(E, a, v) + Weight(E, b, v) {
      assert Weight(joinedA, u, v) == Weight(E, a, v);
      assert Weight(joinedA, b, v) == Weight(E, b, v);
    }
  }

  /** Contraction keeps a graph on the live nodes, with a and b replaced by u. */
  lemma ContractedIsGraph(E: Adjacency, live: set<int>, a: int, b: int, u: int, E': Adjacency)
    requires GraphOn(E, live) && a in live && b in live && u !in live && Contracted(E, a, b, u, E')
    ensures GraphOn(E', live - {a, b} + {u})
  {
    forall k | k in E' ensures k.0 in live - {a, b} + {u} && k.1 in live - {a, b} + {u} && k.0 != k.1 && E'[k] > 0.0 {
      if k.0 == u {
        assert (a, k.1) in E || (b, k.1) in E;
      } else if k.1 == u {
        assert (u, k.0) in E';
        assert (a, k.0) in E || (b, k.0) in E;
      } else {
        assert k in E;
      }
    }
  }
}
