/**
 * The graph-balancing data model: a weighted multigraph G = (V, E, p, q)
 * whose edges (jobs) are to be oriented towards one of their endpoints
 * (machines), the orientation with its load and makespan queries, and the
 * support sets (big edges, fractional edges) the rounding engine reads.
 */
module Core {

  datatype Option<T> = None | Some(value: T)

  /** The two ways construction of a model object can be refused. */
  datatype Error = InvalidInstance | InvalidOrientation

  datatype Result<T> = Ok(value: T) | Err(error: Error)

  /** The tolerance used by the rounding engine, 1e-9. */
  const Epsilon: real := 0.000000001

  /** An edge is big when its weight exceeds this. */
  const BigWeight: real := 0.5

  /**
   * vertices: the machines; edges: the jobs as vertex pairs (duplicates
   * allowed); weights: the sparse map edge index -> p_e; loads: the map
   * vertex -> dedicated load q_v.
   */
  datatype Graph = Graph(vertices: seq<int>, edges: seq<(int, int)>,
                         weights: map<int, real>, loads: map<int, real>)

  /** Every endpoint of every edge is a listed vertex. */
  predicate EndpointsKnown(vertices: seq<int>, edges: seq<(int, int)>) {
    forall i :: 0 <= i < |edges| ==> edges[i].0 in vertices && edges[i].1 in vertices
  }

  /** Every weighted edge index is an index into the edge list. */
  predicate WeightIndicesValid(weights: map<int, real>, m: int) {
    forall k | k in weights :: 0 <= k < m
  }

  /** What a successfully constructed graph satisfies. */
  predicate ValidGraph(g: Graph) {
    && EndpointsKnown(g.vertices, g.edges)
    && WeightIndicesValid(g.weights, |g.edges|)
    && forall v :: v in g.vertices ==> v in g.loads
  }

  /** Edge e exists and has w as one of its endpoints. */
  predicate Touches(g: Graph, e: int, w: int) {
    0 <= e < |g.edges| && (g.edges[e].0 == w || g.edges[e].1 == w)
  }

  /**
   * Graph construction: validate the endpoints and the weight indices, then
   * give every vertex without a dedicated load the load 0.0.
   */
  method NewGraph(vertices: seq<int>, edges: seq<(int, int)>,
                  weights: map<int, real>, loads: map<int, real>)
    returns (r: Result<Graph>)
    ensures r.Ok? <==> EndpointsKnown(vertices, edges) && WeightIndicesValid(weights, |edges|)
    ensures r.Err? ==> r.error == InvalidInstance
    ensures r.Ok? ==> ValidGraph(r.value)
    ensures r.Ok? ==> r.value.vertices == vertices && r.value.edges == edges && r.value.weights == weights
    ensures r.Ok? ==> r.value.loads.Keys == loads.Keys + (set v | v in vertices)
    ensures r.Ok? ==> forall v :: v in loads ==> r.value.loads[v] == loads[v]
    ensures r.Ok? ==> forall v :: v in vertices && v !in loads ==> r.value.loads[v] == 0.0
  {
    var seen: set<int> := {};
    for i := 0 to |edges|
      invariant forall j :: 0 <= j < i ==> edges[j].0 in seen && edges[j].1 in seen
      invariant forall w :: w in seen ==> exists j :: 0 <= j < i && (edges[j].0 == w || edges[j].1 == w)
    {
      seen := seen + {edges[i].0, edges[i].1};
    }
    if !(seen <= set v | v in vertices) {
      assert !EndpointsKnown(vertices, edges) by {
        if EndpointsKnown(vertices, edges) {
          forall w | w in seen ensures w in vertices {
            var j :| 0 <= j < |edges| && (edges[j].0 == w || edges[j].1 == w);
          }
          assert false;
        }
      }
      return Err(InvalidInstance);
    }
    assert EndpointsKnown(vertices, edges) by {
      forall i | 0 <= i < |edges| ensures edges[i].0 in vertices && edges[i].1 in vertices {
        assert edges[i].0 in seen && edges[i].1 in seen;
      }
    }
    if !(forall k | k in weights :: 0 <= k < |edges|) {
      return Err(InvalidInstance);
    }
    var q := loads;
    for i := 0 to |vertices|
      invariant q.Keys == loads.Keys + (set j | 0 <= j < i :: vertices[j])
      invariant forall v :: v in loads ==> q[v] == loads[v]
      invariant forall j :: 0 <= j < i && vertices[j] !in loads ==> q[vertices[j]] == 0.0
    {
      if vertices[i] !in q {
        q := q[vertices[i] := 0.0];
      }
    }
    assert (set j | 0 <= j < |vertices| :: vertices[j]) == (set v | v in vertices);
    r := Ok(Graph(vertices, edges, weights, q));
  }

  /** p_e, with 0.0 for an edge that has no weight entry. */
  function EdgeWeight(g: Graph, e: int): (p: real)
    ensures e in g.weights ==> p == g.weights[e]
    ensures e !in g.weights ==> p == 0.0
  {
    if e in g.weights then g.weights[e] else 0.0
  }

  /** q_v, with 0.0 for a vertex that has no dedicated-load entry. */
  function DedicatedLoad(g: Graph, v: int): (q: real)
    ensures v in g.loads ==> q == g.loads[v]
    ensures v !in g.loads ==> q == 0.0
  {
    if v in g.loads then g.loads[v] else 0.0
  }

  /** The indices of the edges touching w, in increasing order. */
  method IncidentEdges(g: Graph, w: int) returns (r: seq<int>)
    ensures forall i, j :: 0 <= i < j < |r| ==> r[i] < r[j]
    ensures forall e :: e in r <==> Touches(g, e, w)
  {
    r := [];
    for i := 0 to |g.edges|
      invariant forall a, b :: 0 <= a < b < |r| ==> r[a] < r[b]
      invariant forall a :: 0 <= a < |r| ==> r[a] < i
      invariant forall e :: e in r <==> 0 <= e < i && Touches(g, e, w)
    {
      if g.edges[i].0 == w || g.edges[i].1 == w {
        r := r + [i];
      }
    }
  }

  // ---------------------------------------------------------------------
  // Orientation

  /** An orientation: the graph and the map edge index -> target vertex. */
  datatype Orientation = Orientation(graph: Graph, mapping: map<int, int>)

  /** Every mapped index is an edge and its target is one of its endpoints. */
  predicate MappingValid(g: Graph, m: map<int, int>) {
    forall e | e in m :: Touches(g, e, m[e])
  }

  /** Orientation construction, refused when some mapping entry is invalid. */
  function NewOrientation(g: Graph, m: map<int, int>): (r: Result<Orientation>)
    ensures r.Ok? <==> forall e :: e in m ==> 0 <= e < |g.edges| && (m[e] == g.edges[e].0 || m[e] == g.edges[e].1)
    ensures r.Ok? ==> r.value.graph == g && r.value.mapping == m
    ensures r.Err? ==> r.error == InvalidOrientation
  {
    if MappingValid(g, m) then Ok(Orientation(g, m)) else Err(InvalidOrientation)
  }

  /** The total weight of the edges with index below n that m sends to v. */
  function AssignedWeight(g: Graph, m: map<int, int>, v: int, n: nat): real
    requires n <= |g.edges|
  {
    if n == 0 then 0.0
    else AssignedWeight(g, m, v, n - 1) + (if n - 1 in m && m[n - 1] == v then EdgeWeight(g, n - 1) else 0.0)
  }

  /**
   * The assigned weight is never negative when the edges sent to v have
   * non-negative weights, and is zero when no edge below n is sent to v.
   */
  lemma {:induction false} AssignedWeightBounds(g: Graph, m: map<int, int>, v: int, n: nat)
    requires n <= |g.edges|
    ensures (forall e :: 0 <= e < n && e in m && m[e] == v ==> EdgeWeight(g, e) >= 0.0) ==>
              AssignedWeight(g, m, v, n) >= 0.0
    ensures (forall e :: 0 <= e < n && e in m ==> m[e] != v) ==> AssignedWeight(g, m, v, n) == 0.0
  {
    if n > 0 {
      AssignedWeightBounds(g, m, v, n - 1);
    }
  }

  /**
   * load(v) = q_v + the sum of p_e over the edges oriented to v: at least
   * q_v when those weights are non-negative, exactly q_v when no edge is
   * oriented to v.
   */
  function Load(o: Orientation, v: int): (r: real)
    requires MappingValid(o.graph, o.mapping)
    ensures (forall e :: e in o.mapping && o.mapping[e] == v ==> EdgeWeight(o.graph, e) >= 0.0) ==>
              r >= DedicatedLoad(o.graph, v)
    ensures (forall e :: e in o.mapping ==> o.mapping[e] != v) ==> r == DedicatedLoad(o.graph, v)
  {
    AssignedWeightBounds(o.graph, o.mapping, v, |o.graph.edges|);
    DedicatedLoad(o.graph, v) + AssignedWeight(o.graph, o.mapping, v, |o.graph.edges|)
  }

  lemma {:induction false} AssignedWeightAfterReassign(g: Graph, m: map<int, int>, e: int, w: int, v: int, n: nat)
    requires n <= |g.edges| && e in m
    ensures AssignedWeight(g, m[e := w], v, n)
         == AssignedWeight(g, m, v, n)
            + (if 0 <= e < n && w == v then EdgeWeight(g, e) else 0.0)
            - (if 0 <= e < n && m[e] == v then EdgeWeight(g, e) else 0.0)
  {
    if n > 0 {
      AssignedWeightAfterReassign(g, m, e, w, v, n - 1);
    }
  }

  /**
   * Re-orienting one edge e to w adds p_e to the load of w, removes it from
   * the load of e's previous target and leaves every other load unchanged.
   */
  lemma ReassignMovesLoad(o: Orientation, e: int, w: int, v: int)
    requires MappingValid(o.graph, o.mapping) && e in o.mapping && Touches(o.graph, e, w)
    ensures MappingValid(o.graph, o.mapping[e := w])
    ensures Load(Orientation(o.graph, o.mapping[e := w]), v)
         == Load(o, v)
            + (if v == w then EdgeWeight(o.graph, e) else 0.0)
            - (if v == o.mapping[e] then EdgeWeight(o.graph, e) else 0.0)
  {
    AssignedWeightAfterReassign(o.graph, o.mapping, e, w, v, |o.graph.edges|);
  }

  /** The largest load among the vertices vs. */
  function MaxLoad(o: Orientation, vs: seq<int>): (r: real)
    requires MappingValid(o.graph, o.mapping) && |vs| > 0
    ensures forall i :: 0 <= i < |vs| ==> Load(o, vs[i]) <= r
    ensures exists i :: 0 <= i < |vs| && Load(o, vs[i]) == r
  {
    if |vs| == 1 then Load(o, vs[0])
    else
      var rest := MaxLoad(o, vs[1..]);
      assert forall i :: 1 <= i < |vs| ==> vs[i] == vs[1..][i - 1];
      if Load(o, vs[0]) >= rest then Load(o, vs[0]) else rest
  }

  /** The makespan: 0.0 without vertices, otherwise the maximum load. */
  function Makespan(o: Orientation): (r: real)
    requires MappingValid(o.graph, o.mapping)
    ensures |o.graph.vertices| == 0 ==> r == 0.0
    ensures forall v :: v in o.graph.vertices ==> Load(o, v) <= r
    ensures |o.graph.vertices| > 0 ==> exists v :: v in o.graph.vertices && Load(o, v) == r
  {
    if |o.graph.vertices| == 0 then 0.0 else MaxLoad(o, o.graph.vertices)
  }

  /** The three-vertex path 0-1-2 used as the worked orientation example. */
  function ExampleOrientation(): Orientation {
    Orientation(Graph([0, 1, 2], [(0, 1), (1, 2)], map[0 := 0.6, 1 := 0.4], map[0 := 0.1, 1 := 0.2, 2 := 0.1]),
                map[0 := 1, 1 := 2])
  }

  lemma ExampleLoads()
    ensures MappingValid(ExampleOrientation().graph, ExampleOrientation().mapping)
    ensures Load(ExampleOrientation(), 0) == 0.1
    ensures Load(ExampleOrientation(), 1) == 0.8
    ensures Load(ExampleOrientation(), 2) == 0.5
    ensures Makespan(ExampleOrientation()) == 0.8
  {
    var o := ExampleOrientation();
    assert AssignedWeight(o.graph, o.mapping, 0, 2) == 0.0;
    assert AssignedWeight(o.graph, o.mapping, 1, 2) == 0.6;
    assert AssignedWeight(o.graph, o.mapping, 2, 2) == 0.4;
  }

  // ---------------------------------------------------------------------
  // Support sets

  lemma NonEmptyHasElement<T>(s: set<T>)
    requires s != {}
    ensures exists e :: e in s
  {
    if forall e :: e !in s {
      assert false;
    }
  }

  /** Some element of a non-empty set. */
  method Pick<T>(s: set<T>) returns (e: T)
    requires s != {}
    ensures e in s
  {
    NonEmptyHasElement(s);
    e :| e in s;
  }

  /** The big edges: the weighted edge indices with weight above 0.5. */
  method BigEdges(g: Graph) returns (b: set<int>)
    ensures forall e :: e in b <==> e in g.weights && g.weights[e] > BigWeight
  {
    b := {};
    var rest := g.weights.Keys;
    while rest != {}
      invariant rest <= g.weights.Keys
      invariant forall e :: e in b <==> e in g.weights && e !in rest && g.weights[e] > BigWeight
      decreases rest
    {
      var e := Pick(rest);
      if EdgeWeight(g, e) > BigWeight {
        b := b + {e};
      }
      rest := rest - {e};
    }
  }

  /** The big edges: the weighted edge indices whose weight exceeds 0.5. */
  function BigSet(g: Graph): set<int> {
    set e | e in g.weights && g.weights[e] > BigWeight
  }

  /** In a valid graph the big edges are exactly the edges of weight above 0.5. */
  lemma BigEdgesAreHeavyEdges(g: Graph, b: set<int>, e: int)
    requires ValidGraph(g)
    requires forall f :: f in b <==> f in g.weights && g.weights[f] > BigWeight
    ensures e in b <==> 0 <= e < |g.edges| && EdgeWeight(g, e) > BigWeight
  {
  }

  // ---------------------------------------------------------------------
  // Fractional solutions

  /** The value x[(e, v)], 0.0 when the entry is missing. */
  function Get(x: map<(int, int), real>, e: int, v: int): (r: real)
    ensures (e, v) in x ==> r == x[(e, v)]
    ensures (e, v) !in x ==> r == 0.0
  {
    if (e, v) in x then x[(e, v)] else 0.0
  }

  /** a lies strictly inside (eps, 1 - eps). */
  predicate StrictlyFractional(a: real, eps: real) {
    eps < a < 1.0 - eps
  }

  /** Edge e is fractional when one of its endpoint values is strictly inside (eps, 1 - eps). */
  predicate IsFractional(g: Graph, x: map<(int, int), real>, eps: real, e: int)
    requires 0 <= e < |g.edges|
  {
    StrictlyFractional(Get(x, e, g.edges[e].0), eps) || StrictlyFractional(Get(x, e, g.edges[e].1), eps)
  }

  /** The fractional edge set. */
  function FractionalSet(g: Graph, x: map<(int, int), real>, eps: real): set<int> {
    set e | 0 <= e < |g.edges| && IsFractional(g, x, eps, e)
  }

  /** Scan the edges in order and collect the fractional ones. */
  method FractionalEdges(g: Graph, x: map<(int, int), real>, eps: real) returns (f: set<int>)
    ensures forall e :: e in f <==>
      (0 <= e < |g.edges| &&
       (StrictlyFractional(Get(x, e, g.edges[e].0), eps) || StrictlyFractional(Get(x, e, g.edges[e].1), eps)))
    ensures f == FractionalSet(g, x, eps)
  {
    f := {};
    for i := 0 to |g.edges|
      invariant f == set e | 0 <= e < i && IsFractional(g, x, eps, e)
    {
      var xu := Get(x, i, g.edges[i].0);
      var xv := Get(x, i, g.edges[i].1);
      if StrictlyFractional(xu, eps) || StrictlyFractional(xv, eps) {
        f := f + {i};
      }
    }
  }

  /** A value that is 0 or 1 is never strictly fractional. */
  predicate Integral(a: real) {
    a == 0.0 || a == 1.0
  }

  /**
   * An edge whose two endpoint values are both 0 or 1 (a missing entry
   * reads as 0) is not fractional.
   */
  lemma IntegralEdgeNotFractional(g: Graph, x: map<(int, int), real>, eps: real, e: int)
    requires 0 <= e < |g.edges| && 0.0 <= eps
    requires Integral(Get(x, e, g.edges[e].0)) && Integral(Get(x, e, g.edges[e].1))
    ensures e !in FractionalSet(g, x, eps)
  {
  }

  /**
   * Changing only the entries of the edges in D, and leaving every edge of D
   * with integral endpoint values, removes exactly D from the fractional set.
   */
  lemma FractionalSetAfterIntegralising(g: Graph, x: map<(int, int), real>, y: map<(int, int), real>, eps: real, d: set<int>)
    requires 0.0 <= eps
    requires forall e, v :: e !in d ==> Get(y, e, v) == Get(x, e, v)
    requires forall e :: e in d && 0 <= e < |g.edges| ==>
               Integral(Get(y, e, g.edges[e].0)) && Integral(Get(y, e, g.edges[e].1))
    ensures FractionalSet(g, y, eps) == FractionalSet(g, x, eps) - d
  {
    forall e | 0 <= e < |g.edges|
      ensures e in FractionalSet(g, y, eps) <==> e in FractionalSet(g, x, eps) && e !in d
    {
      if e !in d {
        assert Get(y, e, g.edges[e].0) == Get(x, e, g.edges[e].0);
        assert Get(y, e, g.edges[e].1) == Get(x, e, g.edges[e].1);
      }
    }
  }

  /**
   * Changing only the entries of the edges in D changes the fractional
   * status of no edge outside D.
   */
  lemma FractionalOutsideUnchanged(g: Graph, x: map<(int, int), real>, y: map<(int, int), real>, eps: real, d: set<int>)
    requires forall e, v :: e !in d ==> Get(y, e, v) == Get(x, e, v)
    ensures FractionalSet(g, y, eps) - d == FractionalSet(g, x, eps) - d
  {
    forall e | 0 <= e < |g.edges| && e !in d
      ensures IsFractional(g, y, eps, e) <==> IsFractional(g, x, eps, e)
    {
      assert Get(y, e, g.edges[e].0) == Get(x, e, g.edges[e].0);
      assert Get(y, e, g.edges[e].1) == Get(x, e, g.edges[e].1);
    }
  }

  /** o and w are the two ends of edge e, in either order. */
  predicate EndsOf(g: Graph, e: int, o: int, w: int)
    requires 0 <= e < |g.edges|
  {
    (w == g.edges[e].0 && o == g.edges[e].1) || (w == g.edges[e].1 && o == g.edges[e].0)
  }

  /** Edge e assigned integrally: its value at `to` becomes 1, then its value at `away` becomes 0. */
  function AssignedTo(x: map<(int, int), real>, e: int, to: int, away: int): map<(int, int), real> {
    x[(e, to) := 1.0][(e, away) := 0.0]
  }

  /**
   * Assigning an edge between its two ends removes exactly that edge from
   * the fractional set: its ends read 1 and 0 (both 0 for a self-loop) and
   * no other edge's entries change.
   */
  lemma AssignRemovesEdge(g: Graph, x: map<(int, int), real>, e: int, to: int, away: int, eps: real)
    requires 0 <= e < |g.edges| && EndsOf(g, e, to, away) && 0.0 <= eps
    ensures FractionalSet(g, AssignedTo(x, e, to, away), eps) == FractionalSet(g, x, eps) - {e}
    ensures to != away ==> Get(AssignedTo(x, e, to, away), e, to) == 1.0 && Get(AssignedTo(x, e, to, away), e, away) == 0.0
  {
    var y := AssignedTo(x, e, to, away);
    assert Get(y, e, away) == 0.0;
    assert to != away ==> Get(y, e, to) == 1.0;
    FractionalSetAfterIntegralising(g, x, y, eps, {e});
  }

  /** The fractional solution x that the rounding engine changes in place. */
  class Solution {
    var x: map<(int, int), real>

    constructor (init: map<(int, int), real>)
      ensures x == init
    {
      x := init;
    }

    /** x[(e, to)] = 1.0; x[(e, away)] = 0.0 */
    method Assign(e: int, to: int, away: int)
      modifies this
      ensures x == AssignedTo(old(x), e, to, away)
    {
      x := x[(e, to) := 1.0];
      x := x[(e, away) := 0.0];
    }
  }
}
