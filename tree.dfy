/**
 * The tree assignment of the rounding loop: when no leaf assignment
 * applies, a big fractional edge with an end of big-degree one and more
 * than three quarters of its weight there starts a search for the
 * component of the big fractional subgraph holding it; a vertex of degree
 * one in that component is taken as the root, and every component edge met
 * by a breadth-first search from the root is made integral, pointing away
 * from the root.
 *
 * Each scan comes twice: as a method that loops the way the source does,
 * and as the function that specifies it, which the method's ensures names
 * and the lemmas reason about (ComponentEdges and ComponentOf,
 * TreeVertices and TreeVertexOrder, FirstTreeLeaf and TreeRoot,
 * FirstJoiningEdge and FirstJoiningFrom, VisitEdge and VisitEdgeStep,
 * VisitNeighbours and VisitFrom, OrientTree and Bfs, TreeStep and
 * FirstFiring).
 */
module TreeAssignment {
  import opened Core
  import opened LeafStep
  import opened CycleFinder

  // ---------------------------------------------------------------------
  // Component of an edge

  /** Edges a and b have an end in common. */
  predicate SharesEnd(g: Graph, a: int, b: int) {
    && 0 <= a < |g.edges| && 0 <= b < |g.edges|
    && (g.edges[b].0 == g.edges[a].0 || g.edges[b].0 == g.edges[a].1
        || g.edges[b].1 == g.edges[a].0 || g.edges[b].1 == g.edges[a].1)
  }

  /** c is a chain of edges from start, each later one in s and sharing an end with the one before. */
  ghost predicate IsChain(g: Graph, s: set<int>, start: int, c: seq<int>) {
    && |c| > 0 && c[0] == start
    && (forall i :: 1 <= i < |c| ==> c[i] in s)
    && (forall i :: 0 <= i < |c| - 1 ==> SharesEnd(g, c[i], c[i + 1]))
  }

  /** Edge e is reached from start through edges of s. */
  ghost predicate Linked(g: Graph, s: set<int>, start: int, e: int) {
    exists c :: IsChain(g, s, start, c) && c[|c| - 1] == e
  }

  /** C is closed: an edge of s sharing an end with an edge of C is in C. */
  ghost predicate ClosedIn(g: Graph, s: set<int>, comp: set<int>) {
    forall a, b :: a in comp && b in s && SharesEnd(g, a, b) ==> b in comp
  }

  /** The component of start within s: start and every edge of s reached from it. */
  ghost function ComponentOf(g: Graph, s: set<int>, start: int): set<int> {
    set e | e in s + {start} && Linked(g, s, start, e)
  }

  /**
   * A closed set holding start, within s + {start}, all of whose edges are
   * reached from start, is the component of start.
   */
  lemma ComponentIsComponentOf(g: Graph, s: set<int>, start: int, comp: set<int>)
    requires start in comp && comp <= s + {start}
    requires ClosedIn(g, s, comp)
    requires forall e :: e in comp ==> Linked(g, s, start, e)
    ensures comp == ComponentOf(g, s, start)
  {
    forall e | e in ComponentOf(g, s, start) ensures e in comp {
      var c :| IsChain(g, s, start, c) && c[|c| - 1] == e;
      ChainInClosed(g, s, start, c, comp);
    }
  }

  lemma AddShrinks(u: set<int>, c: set<int>, k: int)
    requires k in u && k !in c
    ensures |u - (c + {k})| + 1 == |u - c|
  {
    assert u - (c + {k}) == (u - c) - {k};
  }

  /** chains holds, for every edge of comp, a chain from start ending at it. */
  ghost predicate ChainsFor(g: Graph, s: set<int>, start: int, comp: set<int>, chains: map<int, seq<int>>) {
    forall e :: e in comp ==> e in chains && IsChain(g, s, start, chains[e]) && chains[e][|chains[e]| - 1] == e
  }

  /**
   * _get_component_edges: breadth-first search over edges sharing an end.
   * The result holds start, is closed within edge_set, and every edge of it
   * is reached from start.
   */
  method ComponentEdges(g: Graph, edgeSet: set<int>, start: int) returns (comp: set<int>)
    requires 0 <= start < |g.edges|
    requires forall e :: e in edgeSet ==> 0 <= e < |g.edges|
    ensures start in comp && comp <= edgeSet + {start}
    ensures ClosedIn(g, edgeSet, comp)
    ensures forall e :: e in comp ==> Linked(g, edgeSet, start, e)
    ensures comp == ComponentOf(g, edgeSet, start)
  {
    comp := {start};
    var queue := [start];
    ghost var done: set<int> := {};
    ghost var chains: map<int, seq<int>> := map[start := [start]];
    ghost var u := edgeSet + {start};
    while |queue| > 0
      invariant start in comp && comp <= u
      invariant forall i :: 0 <= i < |queue| ==> queue[i] in comp
      invariant forall a :: a in comp ==> a in done || a in queue
      invariant forall a, b :: a in done && b in edgeSet && SharesEnd(g, a, b) ==> b in comp
      invariant ChainsFor(g, edgeSet, start, comp, chains)
      decreases |u - comp|, |queue|
    {
      var e := queue[0];
      ghost var rest := queue[1..];
      ghost var comp0 := comp;
      assert forall a :: a in queue ==> a == e || a in rest;
      assert forall i :: 0 <= i < |rest| ==> rest[i] in comp0;
      queue := queue[1..];
      comp, queue, chains := AddNeighbours(g, edgeSet, start, u, e, comp, queue, chains);
      assert queue[..|rest|] == rest;
      assert forall a :: a in rest ==> a in queue;
      forall i | 0 <= i < |queue| ensures queue[i] in comp {
        if i < |rest| {
          assert queue[i] == rest[i];
        }
      }
      done := done + {e};
    }
    forall e | e in comp ensures Linked(g, edgeSet, start, e) {
      assert IsChain(g, edgeSet, start, chains[e]) && chains[e][|chains[e]| - 1] == e;
    }
    ComponentIsComponentOf(g, edgeSet, start, comp);
  }

  /** One step of the search: every edge of edge_set outside comp sharing an end with e joins comp and the queue. */
  method AddNeighbours(g: Graph, edgeSet: set<int>, start: int, ghost u: set<int>, e: int,
                       comp: set<int>, queue: seq<int>, ghost chains: map<int, seq<int>>)
    returns (comp': set<int>, queue': seq<int>, ghost chains': map<int, seq<int>>)
    requires forall b :: b in edgeSet ==> 0 <= b < |g.edges|
    requires 0 <= e < |g.edges| && e in comp && comp <= u && edgeSet <= u
    requires ChainsFor(g, edgeSet, start, comp, chains)
    ensures comp <= comp' <= u
    ensures (comp' == comp && queue' == queue) || |u - comp'| < |u - comp|
    ensures |queue'| >= |queue| && queue'[..|queue|] == queue
    ensures forall i :: |queue| <= i < |queue'| ==> queue'[i] in comp'
    ensures forall a :: a in comp' ==> a in comp || a in queue'
    ensures forall b :: b in edgeSet && SharesEnd(g, e, b) ==> b in comp'
    ensures ChainsFor(g, edgeSet, start, comp', chains')
  {
    comp', queue', chains' := comp, queue, chains;
    var (eu, ev) := g.edges[e];
    for k := 0 to |g.edges|
      invariant comp <= comp' <= u
      invariant (comp' == comp && queue' == queue) || |u - comp'| < |u - comp|
      invariant |queue'| >= |queue| && queue'[..|queue|] == queue
      invariant forall i :: |queue| <= i < |queue'| ==> queue'[i] in comp'
      invariant forall a :: a in comp' ==> a in comp || a in queue'
      invariant forall b :: 0 <= b < k && b in edgeSet && SharesEnd(g, e, b) ==> b in comp'
      invariant ChainsFor(g, edgeSet, start, comp', chains')
    {
      if k in edgeSet && k !in comp' {
        var (ou, ov) := g.edges[k];
        if ou == eu || ou == ev || ov == eu || ov == ev {
          AddShrinks(u, comp', k);
          assert IsChain(g, edgeSet, start, chains'[e] + [k]);
          chains' := chains'[k := chains'[e] + [k]];
          comp' := comp' + {k};
          queue' := queue' + [k];
        }
      }
    }
  }

  /** Every edge reached from start lies in any closed set that holds start: the component is the least one. */
  lemma {:induction false} ChainInClosed(g: Graph, s: set<int>, start: int, c: seq<int>, comp: set<int>)
    requires start in comp && ClosedIn(g, s, comp)
    requires IsChain(g, s, start, c)
    ensures c[|c| - 1] in comp
    decreases |c|
  {
    if |c| > 1 {
      var c' := c[..|c| - 1];
      assert IsChain(g, s, start, c');
      ChainInClosed(g, s, start, c', comp);
      assert SharesEnd(g, c[|c| - 2], c[|c| - 1]);
    }
  }

  // ---------------------------------------------------------------------
  // Vertices of a tree and a leaf among them

  /** vs with w added at the end, unless it is already there. */
  function AddVertex(vs: seq<int>, w: int): seq<int> {
    if w in vs then vs else vs + [w]
  }

  /** The vertices of the edges of t below n, each once, in the order the edges (by index) bring them. */
  function VerticesUpTo(g: Graph, t: set<int>, n: nat): seq<int>
    requires n <= |g.edges|
  {
    if n == 0 then []
    else
      var vs := VerticesUpTo(g, t, n - 1);
      if n - 1 in t then AddVertex(AddVertex(vs, g.edges[n - 1].0), g.edges[n - 1].1) else vs
  }

  /** The vertex list of tree t, in the order the search for a leaf reads it. */
  function TreeVertexOrder(g: Graph, t: set<int>): seq<int> {
    VerticesUpTo(g, t, |g.edges|)
  }

  /** The vertex list holds each endpoint of an edge of t below n, once, and nothing else. */
  lemma {:induction false} VerticesUpToFacts(g: Graph, t: set<int>, n: nat)
    requires n <= |g.edges|
    ensures forall i, j :: 0 <= i < j < |VerticesUpTo(g, t, n)| ==> VerticesUpTo(g, t, n)[i] != VerticesUpTo(g, t, n)[j]
    ensures forall w :: w in VerticesUpTo(g, t, n) <==> exists e :: e in t && 0 <= e < n && Touches(g, e, w)
  {
    if n > 0 {
      VerticesUpToFacts(g, t, n - 1);
      var vs := VerticesUpTo(g, t, n - 1);
      forall w ensures w in VerticesUpTo(g, t, n) <==> exists e :: e in t && 0 <= e < n && Touches(g, e, w) {
        if w in VerticesUpTo(g, t, n) && w !in vs {
          assert n - 1 in t && Touches(g, n - 1, w);
        }
        if w !in vs && (exists e :: e in t && 0 <= e < n && Touches(g, e, w)) {
          var e :| e in t && 0 <= e < n && Touches(g, e, w);
          assert e == n - 1;
        }
      }
    }
  }

  /** The first vertex of vs from position i on whose degree in t is one. */
  function FirstOfDegreeOne(g: Graph, t: set<int>, vs: seq<int>, i: nat): Option<int>
    decreases |vs| - i
  {
    if i >= |vs| then None
    else if DegreeIn(g, t, vs[i]) == 1 then Some(vs[i])
    else FirstOfDegreeOne(g, t, vs, i + 1)
  }

  /** The leaf a tree is oriented away from: its first vertex of degree one, if any. */
  function TreeRoot(g: Graph, t: set<int>): Option<int> {
    FirstOfDegreeOne(g, t, TreeVertexOrder(g, t), 0)
  }

  /** A vertex found from position i on has degree one; none is found only when no vertex from i on has. */
  lemma {:induction false} FirstOfDegreeOneFacts(g: Graph, t: set<int>, vs: seq<int>, i: nat)
    ensures FirstOfDegreeOne(g, t, vs, i).Some? ==>
      FirstOfDegreeOne(g, t, vs, i).value in vs && DegreeIn(g, t, FirstOfDegreeOne(g, t, vs, i).value) == 1
    ensures FirstOfDegreeOne(g, t, vs, i).None? ==> forall j :: i <= j < |vs| ==> DegreeIn(g, t, vs[j]) != 1
    decreases |vs| - i
  {
    if i < |vs| && DegreeIn(g, t, vs[i]) != 1 {
      FirstOfDegreeOneFacts(g, t, vs, i + 1);
    }
  }

  /** The root has degree one in t, and there is no root exactly when no vertex has degree one in t. */
  lemma TreeRootIsLeaf(g: Graph, t: set<int>)
    ensures TreeRoot(g, t).Some? ==> DegreeIn(g, t, TreeRoot(g, t).value) == 1
    ensures TreeRoot(g, t).None? <==> forall w :: DegreeIn(g, t, w) != 1
  {
    FirstOfDegreeOneFacts(g, t, TreeVertexOrder(g, t), 0);
    VerticesUpToFacts(g, t, |g.edges|);
    var vs := TreeVertexOrder(g, t);
    if TreeRoot(g, t).None? {
      forall w ensures DegreeIn(g, t, w) != 1 {
        if w in vs {
          var j :| 0 <= j < |vs| && vs[j] == w;
        } else {
          assert IncidentIn(g, t, w) == {};
        }
      }
    }
  }

  /** The vertices of the edges in t, each once, in the order the edges (by index) bring them. */
  method TreeVertices(g: Graph, t: set<int>) returns (vs: seq<int>)
    ensures vs == TreeVertexOrder(g, t)
    ensures forall i, j :: 0 <= i < j < |vs| ==> vs[i] != vs[j]
    ensures forall w :: w in vs <==> IncidentIn(g, t, w) != {}
  {
    vs := [];
    for k := 0 to |g.edges|
      invariant vs == VerticesUpTo(g, t, k)
      invariant forall i, j :: 0 <= i < j < |vs| ==> vs[i] != vs[j]
      invariant forall w :: w in vs <==> exists e :: e in t && e < k && Touches(g, e, w)
    {
      if k in t {
        var (a, b) := g.edges[k];
        if a !in vs {
          vs := vs + [a];
        }
        if b !in vs {
          vs := vs + [b];
        }
      }
    }
    forall w ensures w in vs <==> IncidentIn(g, t, w) != {} {
      if w in vs {
        var e :| e in t && e < |g.edges| && Touches(g, e, w);
        assert e in IncidentIn(g, t, w);
      }
      if IncidentIn(g, t, w) != {} {
        NonEmptyHasElement(IncidentIn(g, t, w));
        var e :| e in IncidentIn(g, t, w);
        assert e in t && e < |g.edges| && Touches(g, e, w);
      }
    }
  }

  /** The first vertex of vs, in order, of degree one in t. */
  method FirstTreeLeaf(g: Graph, t: set<int>, vs: seq<int>) returns (leaf: Option<int>)
    requires forall i, j :: 0 <= i < j < |vs| ==> vs[i] != vs[j]
    ensures leaf.Some? ==> leaf.value in vs && DegreeIn(g, t, leaf.value) == 1
    ensures leaf.Some? ==> forall i :: 0 <= i < |vs| && vs[i] == leaf.value ==>
      forall j :: 0 <= j < i ==> DegreeIn(g, t, vs[j]) != 1
    ensures leaf.None? ==> forall i :: 0 <= i < |vs| ==> DegreeIn(g, t, vs[i]) != 1
    ensures leaf == FirstOfDegreeOne(g, t, vs, 0)
  {
    for i := 0 to |vs|
      invariant forall j :: 0 <= j < i ==> DegreeIn(g, t, vs[j]) != 1
      invariant FirstOfDegreeOne(g, t, vs, 0) == FirstOfDegreeOne(g, t, vs, i)
    {
      var d := Degree(g, t, vs[i]);
      if d == 1 {
        return Some(vs[i]);
      }
    }
    return None;
  }

  // ---------------------------------------------------------------------
  // Orienting a tree away from a leaf

  /** The first edge of t, by index, joining a and b. */
  method FirstJoiningEdge(g: Graph, t: set<int>, a: int, b: int) returns (r: Option<int>)
    ensures r.Some? ==> r.value in t && 0 <= r.value < |g.edges| && EndsOf(g, r.value, b, a)
    ensures r.Some? ==> forall e :: 0 <= e < r.value && e in t ==> !EndsOf(g, e, b, a)
    ensures r.None? ==> forall e :: 0 <= e < |g.edges| && e in t ==> !EndsOf(g, e, b, a)
    ensures r == FirstJoiningFrom(g, t, a, b, 0)
  {
    for k := 0 to |g.edges|
      invariant forall e :: 0 <= e < k && e in t ==> !EndsOf(g, e, b, a)
      invariant FirstJoiningFrom(g, t, a, b, 0) == FirstJoiningFrom(g, t, a, b, k)
    {
      if k in t {
        var (u, v) := g.edges[k];
        if (u == a && v == b) || (u == b && v == a) {
          return Some(k);
        }
      }
    }
    return None;
  }

  /**
   * The state of the search from the root `leaf`: dir maps each edge
   * oriented so far to (tail, head), both visited, with value 0 at the tail
   * and 1 at the head; no other edge's entries differ from x0; every visited
   * vertex but the root is the head of exactly one oriented edge, into[w],
   * and the root is the head of none.
   */
  ghost predicate OrientState(g: Graph, t: set<int>, x0: map<(int, int), real>, x: map<(int, int), real>,
                              leaf: int, visited: set<int>, dir: map<int, (int, int)>, into: map<int, int>) {
    && leaf in visited
    && dir.Keys <= t
    && (forall e, w :: e !in dir ==> Get(x, e, w) == Get(x0, e, w))
    && (forall e :: e in dir ==>
          && 0 <= e < |g.edges| && EndsOf(g, e, dir[e].1, dir[e].0) && dir[e].0 != dir[e].1
          && Get(x, e, dir[e].1) == 1.0 && Get(x, e, dir[e].0) == 0.0
          && dir[e].0 in visited && dir[e].1 in visited)
    && into.Keys == visited - {leaf}
    && (forall w :: w in into ==> into[w] in dir && dir[into[w]].1 == w)
    && (forall e :: e in dir ==> dir[e].1 in into && into[dir[e].1] == e)
    && (forall e :: e in dir ==> FirstJoining(g, t, e, dir[e].0, dir[e].1))
  }

  /** No edge of t below e joins a and b: e is the edge the search picks for the pair. */
  predicate FirstJoining(g: Graph, t: set<int>, e: int, a: int, b: int) {
    forall e' :: 0 <= e' < e && e' < |g.edges| && e' in t ==> !EndsOf(g, e', b, a)
  }

  /** The first edge of t, from index k on, joining a and b. */
  function FirstJoiningFrom(g: Graph, t: set<int>, a: int, b: int, k: nat): (r: Option<int>)
    ensures r.Some? ==> k <= r.value < |g.edges| && r.value in t && EndsOf(g, r.value, b, a)
    ensures r.Some? ==> forall e :: k <= e < r.value && e in t ==> !EndsOf(g, e, b, a)
    ensures r.None? ==> forall e :: k <= e < |g.edges| && e in t ==> !EndsOf(g, e, b, a)
    decreases |g.edges| - k
  {
    if k >= |g.edges| then None
    else if k in t && EndsOf(g, k, b, a) then Some(k)
    else FirstJoiningFrom(g, t, a, b, k + 1)
  }

  /** What the breadth-first search holds between steps: the solution, the visited vertices and the queue. */
  datatype Search = Search(x: map<(int, int), real>, visited: set<int>, queue: seq<int>)

  /**
   * Edge k of the scan from current: when k is an edge of t from current to
   * an unvisited neighbour n, the first edge of t joining the two is
   * assigned to n, and n is marked visited and queued; otherwise nothing
   * changes.
   */
  function VisitEdgeStep(g: Graph, t: set<int>, current: int, k: int, st: Search): Search
    requires 0 <= k < |g.edges|
  {
    var n := Other(g, k, current);
    if k in t && Touches(g, k, current) && n !in st.visited then
      match FirstJoiningFrom(g, t, current, n, 0)
      case Some(e) => Search(AssignedTo(st.x, e, n, current), st.visited + {n}, st.queue + [n])
      case None => st
    else st
  }

  /** Growing a set leaves at most as many vertices of u outside it. */
  lemma DiffShrinks(u: set<int>, a: set<int>, b: set<int>)
    requires a <= b
    ensures |u - b| <= |u - a|
  {
    var d := (u - a) - (u - b);
    assert u - a == (u - b) + d;
    assert (u - b) * d == {};
  }

  /** The scan of edges k, k + 1, ... from current, in index order. */
  function VisitFrom(g: Graph, t: set<int>, current: int, k: nat, st: Search): Search
    decreases |g.edges| - k
  {
    if k >= |g.edges| then st
    else VisitFrom(g, t, current, k + 1, VisitEdgeStep(g, t, current, k, st))
  }

  /** One edge of the scan adds at most one vertex of the support, and queues it. */
  lemma VisitEdgeStepGrows(g: Graph, t: set<int>, current: int, k: int, st: Search)
    requires 0 <= k < |g.edges|
    ensures st.visited <= VisitEdgeStep(g, t, current, k, st).visited
    ensures var r := VisitEdgeStep(g, t, current, k, st);
      (r.visited == st.visited && r.queue == st.queue)
      || |SupportUpTo(g, t, |g.edges|) - r.visited| < |SupportUpTo(g, t, |g.edges|) - st.visited|
  {
    var n := Other(g, k, current);
    if k in t && Touches(g, k, current) && n !in st.visited {
      assert n in SupportUpTo(g, t, |g.edges|);
      AddShrinks(SupportUpTo(g, t, |g.edges|), st.visited, n);
    }
  }

  /** A scan only grows the visited set; when the set stays the same, so does the queue. */
  lemma {:induction false} VisitFromGrows(g: Graph, t: set<int>, current: int, k: nat, st: Search)
    ensures st.visited <= VisitFrom(g, t, current, k, st).visited
    ensures var r := VisitFrom(g, t, current, k, st);
      (r.visited == st.visited && r.queue == st.queue)
      || |SupportUpTo(g, t, |g.edges|) - r.visited| < |SupportUpTo(g, t, |g.edges|) - st.visited|
    decreases |g.edges| - k
  {
    if k < |g.edges| {
      var next := VisitEdgeStep(g, t, current, k, st);
      VisitEdgeStepGrows(g, t, current, k, st);
      VisitFromGrows(g, t, current, k + 1, next);
      DiffShrinks(SupportUpTo(g, t, |g.edges|), next.visited, VisitFrom(g, t, current, k + 1, next).visited);
    }
  }

  /** The breadth-first search: dequeue the first vertex and scan its edges, until the queue is empty. */
  function Bfs(g: Graph, t: set<int>, st: Search): Search
    decreases |SupportUpTo(g, t, |g.edges|) - st.visited|, |st.queue|
  {
    if |st.queue| == 0 then st
    else
      var next := VisitFrom(g, t, st.queue[0], 0, Search(st.x, st.visited, st.queue[1..]));
      VisitFromGrows(g, t, st.queue[0], 0, Search(st.x, st.visited, st.queue[1..]));
      Bfs(g, t, next)
  }

  /** The search ends with an empty queue and a visited set holding the one it started with. */
  lemma {:induction false} BfsEnds(g: Graph, t: set<int>, st: Search)
    ensures Bfs(g, t, st).queue == [] && st.visited <= Bfs(g, t, st).visited
    decreases |SupportUpTo(g, t, |g.edges|) - st.visited|, |st.queue|
  {
    if |st.queue| > 0 {
      var start := Search(st.x, st.visited, st.queue[1..]);
      VisitFromGrows(g, t, st.queue[0], 0, start);
      BfsEnds(g, t, VisitFrom(g, t, st.queue[0], 0, start));
    }
  }

  /** The solution after orienting t away from root by the breadth-first search. */
  function OrientAway(g: Graph, t: set<int>, x: map<(int, int), real>, root: int): map<(int, int), real> {
    Bfs(g, t, Search(x, {root}, [root])).x
  }

  /**
   * _orient_tree_away_from_leaf: breadth-first search from the leaf over the
   * edges of t; the first edge joining the current vertex to each unvisited
   * neighbour is given to the neighbour. The search leaves exactly the
   * state `Bfs` defines, and reaches every vertex joined to a visited one
   * by an edge of t.
   */
  method OrientTree(s: Solution, g: Graph, t: set<int>, leaf: int)
    returns (ghost visited: set<int>, ghost dir: map<int, (int, int)>, ghost into: map<int, int>)
    requires forall e :: e in t ==> 0 <= e < |g.edges|
    modifies s
    ensures OrientState(g, t, old(s.x), s.x, leaf, visited, dir, into)
    ensures forall e, a :: e in t && a in visited && Touches(g, e, a) ==> Other(g, e, a) in visited
    ensures Bfs(g, t, Search(old(s.x), {leaf}, [leaf])) == Search(s.x, visited, [])
    ensures s.x == OrientAway(g, t, old(s.x), leaf)
  {
    ghost var x0 := s.x;
    ghost var tv := SupportUpTo(g, t, |g.edges|) + {leaf};
    visited, dir, into := {leaf}, map[], map[];
    var seen := {leaf};
    var queue := [leaf];
    ghost var done: set<int> := {};
    while |queue| > 0
      invariant seen == visited && visited <= tv
      invariant OrientState(g, t, x0, s.x, leaf, visited, dir, into)
      invariant forall i :: 0 <= i < |queue| ==> queue[i] in visited
      invariant forall a :: a in visited ==> a in done || a in queue
      invariant forall a, e :: a in done && e in t && Touches(g, e, a) ==> Other(g, e, a) in visited
      invariant Bfs(g, t, Search(x0, {leaf}, [leaf])) == Bfs(g, t, Search(s.x, visited, queue))
      decreases |tv - visited|, |queue|
    {
      var current := queue[0];
      ghost var rest := queue[1..];
      ghost var visited0 := visited;
      assert forall a :: a in queue ==> a == current || a in rest;
      assert forall i :: 0 <= i < |rest| ==> rest[i] in visited0;
      assert Bfs(g, t, Search(s.x, visited, queue)) == Bfs(g, t, VisitFrom(g, t, current, 0, Search(s.x, visited, rest)));
      queue := queue[1..];
      seen, queue, dir, into := VisitNeighbours(s, g, t, leaf, tv, current, seen, queue, x0, dir, into);
      visited := seen;
      assert queue[..|rest|] == rest;
      assert forall a :: a in rest ==> a in queue;
      forall i | 0 <= i < |queue| ensures queue[i] in visited {
        if i < |rest| {
          assert queue[i] == rest[i];
        }
      }
      done := done + {current};
    }
  }

  /** queue' extends queue by visited vertices, and every vertex visited since is queued. */
  ghost predicate QueueExtends(visited: set<int>, queue: seq<int>, visited': set<int>, queue': seq<int>) {
    && |queue'| >= |queue| && queue'[..|queue|] == queue
    && (forall i :: |queue| <= i < |queue'| ==> queue'[i] in visited')
    && (forall a :: a in visited' ==> a in visited || a in queue')
  }

  /** Two extensions in a row make one. */
  lemma QueueExtendsTrans(v0: set<int>, q0: seq<int>, v1: set<int>, q1: seq<int>, v2: set<int>, q2: seq<int>)
    requires QueueExtends(v0, q0, v1, q1) && QueueExtends(v1, q1, v2, q2) && v1 <= v2
    ensures QueueExtends(v0, q0, v2, q2)
  {
    assert q1 == q2[..|q1|];
    assert q0 == q2[..|q0|];
    forall a | a in q1 ensures a in q2 {
      var i :| 0 <= i < |q1| && q1[i] == a;
      assert q2[i] == a;
    }
  }

  /** One dequeued vertex: orient an edge to each neighbour not yet visited, in edge order. */
  method VisitNeighbours(s: Solution, g: Graph, t: set<int>, leaf: int, ghost tv: set<int>, current: int,
                         visited: set<int>, queue: seq<int>, ghost x0: map<(int, int), real>,
                         ghost dir: map<int, (int, int)>, ghost into: map<int, int>)
    returns (visited': set<int>, queue': seq<int>, ghost dir': map<int, (int, int)>, ghost into': map<int, int>)
    requires forall e :: e in t ==> 0 <= e < |g.edges|
    requires tv == SupportUpTo(g, t, |g.edges|) + {leaf}
    requires current in visited && visited <= tv
    requires OrientState(g, t, x0, s.x, leaf, visited, dir, into)
    modifies s
    ensures visited <= visited' <= tv
    ensures (visited' == visited && queue' == queue) || |tv - visited'| < |tv - visited|
    ensures QueueExtends(visited, queue, visited', queue')
    ensures forall e :: e in t && Touches(g, e, current) ==> Other(g, e, current) in visited'
    ensures OrientState(g, t, x0, s.x, leaf, visited', dir', into')
    ensures Search(s.x, visited', queue') == VisitFrom(g, t, current, 0, Search(old(s.x), visited, queue))
  {
    visited', queue', dir', into' := visited, queue, dir, into;
    for k := 0 to |g.edges|
      invariant VisitFrom(g, t, current, 0, Search(old(s.x), visited, queue))
             == VisitFrom(g, t, current, k, Search(s.x, visited', queue'))
      invariant visited <= visited' <= tv && current in visited'
      invariant (visited' == visited && queue' == queue) || |tv - visited'| < |tv - visited|
      invariant QueueExtends(visited, queue, visited', queue')
      invariant forall e :: 0 <= e < k && e in t && Touches(g, e, current) ==> Other(g, e, current) in visited'
      invariant OrientState(g, t, x0, s.x, leaf, visited', dir', into')
    {
      ghost var (v1, q1) := (visited', queue');
      visited', queue', dir', into' := ScanEdge(s, g, t, leaf, tv, current, k, visited', queue', x0, dir', into');
      QueueExtendsTrans(visited, queue, v1, q1, visited', queue');
    }
  }

  /** One iteration of the scan: VisitEdge, seen as a step of VisitFrom. */
  method ScanEdge(s: Solution, g: Graph, t: set<int>, leaf: int, ghost tv: set<int>, current: int, k: int,
                  visited: set<int>, queue: seq<int>, ghost x0: map<(int, int), real>,
                  ghost dir: map<int, (int, int)>, ghost into: map<int, int>)
    returns (visited': set<int>, queue': seq<int>, ghost dir': map<int, (int, int)>, ghost into': map<int, int>)
    requires forall e :: e in t ==> 0 <= e < |g.edges|
    requires tv == SupportUpTo(g, t, |g.edges|) + {leaf}
    requires 0 <= k < |g.edges|
    requires current in visited && visited <= tv
    requires OrientState(g, t, x0, s.x, leaf, visited, dir, into)
    modifies s
    ensures visited <= visited' <= tv
    ensures (visited' == visited && queue' == queue) || |tv - visited'| < |tv - visited|
    ensures QueueExtends(visited, queue, visited', queue')
    ensures k in t && Touches(g, k, current) ==> Other(g, k, current) in visited'
    ensures OrientState(g, t, x0, s.x, leaf, visited', dir', into')
    ensures VisitFrom(g, t, current, k, Search(old(s.x), visited, queue))
         == VisitFrom(g, t, current, k + 1, Search(s.x, visited', queue'))
  {
    visited', queue', dir', into' := VisitEdge(s, g, t, leaf, tv, current, k, visited, queue, x0, dir, into);
  }

  /** One edge k of the scan: when it joins current to an unvisited neighbour, orient the first such edge towards it. */
  method VisitEdge(s: Solution, g: Graph, t: set<int>, leaf: int, ghost tv: set<int>, current: int, k: int,
                   visited: set<int>, queue: seq<int>, ghost x0: map<(int, int), real>,
                   ghost dir: map<int, (int, int)>, ghost into: map<int, int>)
    returns (visited': set<int>, queue': seq<int>, ghost dir': map<int, (int, int)>, ghost into': map<int, int>)
    requires forall e :: e in t ==> 0 <= e < |g.edges|
    requires tv == SupportUpTo(g, t, |g.edges|) + {leaf}
    requires 0 <= k < |g.edges|
    requires current in visited && visited <= tv
    requires OrientState(g, t, x0, s.x, leaf, visited, dir, into)
    modifies s
    ensures visited <= visited' <= tv
    ensures (visited' == visited && queue' == queue) || |tv - visited'| < |tv - visited|
    ensures QueueExtends(visited, queue, visited', queue')
    ensures k in t && Touches(g, k, current) ==> Other(g, k, current) in visited'
    ensures OrientState(g, t, x0, s.x, leaf, visited', dir', into')
    ensures Search(s.x, visited', queue') == VisitEdgeStep(g, t, current, k, Search(old(s.x), visited, queue))
    ensures visited' == visited ==> dir' == dir && into' == into
    ensures visited' != visited ==>
      var n := Other(g, k, current);
      && FirstJoiningFrom(g, t, current, n, 0).Some?
      && dir' == dir[FirstJoiningFrom(g, t, current, n, 0).value := (current, n)]
      && into' == into[n := FirstJoiningFrom(g, t, current, n, 0).value]
  {
    visited', queue', dir', into' := visited, queue, dir, into;
    if k in t && Touches(g, k, current) {
      var neighbour := Other(g, k, current);
      if neighbour !in visited {
        var j := FirstJoiningEdge(g, t, current, neighbour);
        assert j.Some?;
        var e := j.value;
        ghost var x1 := s.x;
        s.Assign(e, neighbour, current);
        OrientStep(g, t, x0, x1, s.x, leaf, visited, dir, into, e, current, neighbour);
        assert neighbour in tv;
        AddShrinks(tv, visited, neighbour);
        dir' := dir[e := (current, neighbour)];
        into' := into[neighbour := e];
        visited' := visited + {neighbour};
        queue' := queue + [neighbour];
      }
    }
  }

  /** Orienting a fresh edge from a visited vertex to an unvisited one keeps the search state. */
  lemma OrientStep(g: Graph, t: set<int>, x0: map<(int, int), real>, x: map<(int, int), real>, y: map<(int, int), real>,
                   leaf: int, visited: set<int>, dir: map<int, (int, int)>, into: map<int, int>,
                   e: int, current: int, neighbour: int)
    requires OrientState(g, t, x0, x, leaf, visited, dir, into)
    requires e in t && 0 <= e < |g.edges| && EndsOf(g, e, neighbour, current)
    requires current in visited && neighbour !in visited
    requires y == AssignedTo(x, e, neighbour, current)
    requires FirstJoining(g, t, e, current, neighbour)
    ensures OrientState(g, t, x0, y, leaf, visited + {neighbour}, dir[e := (current, neighbour)], into[neighbour := e])
  {
    FreshEdge(g, t, x0, x, leaf, visited, dir, into, e, current, neighbour);
    var dir' := dir[e := (current, neighbour)];
    var into' := into[neighbour := e];
    forall e', w | e' !in dir' ensures Get(y, e', w) == Get(x0, e', w) {
      assert Get(y, e', w) == Get(x, e', w);
    }
    forall e' | e' in dir && e' != e
      ensures Get(y, e', dir[e'].1) == Get(x, e', dir[e'].1) && Get(y, e', dir[e'].0) == Get(x, e', dir[e'].0)
    {
    }
    assert into'.Keys == (visited + {neighbour}) - {leaf};
  }

  /** An edge reaching an unvisited vertex has not been oriented yet. */
  lemma FreshEdge(g: Graph, t: set<int>, x0: map<(int, int), real>, x: map<(int, int), real>,
                  leaf: int, visited: set<int>, dir: map<int, (int, int)>, into: map<int, int>,
                  e: int, current: int, neighbour: int)
    requires OrientState(g, t, x0, x, leaf, visited, dir, into)
    requires 0 <= e < |g.edges| && EndsOf(g, e, neighbour, current) && neighbour !in visited
    ensures e !in dir
  {
  }

  // ---------------------------------------------------------------------
  // The tree step

  /** No edge of s is a self-loop. */
  predicate NoSelfLoops(g: Graph, s: set<int>) {
    forall e :: e in s && 0 <= e < |g.edges| ==> g.edges[e].0 != g.edges[e].1
  }

  /** What a tree step promises about the edges it oriented, as (tail, head). */
  ghost predicate TreeOriented(g: Graph, bf: set<int>, x0: map<(int, int), real>, x: map<(int, int), real>,
                               dir: map<int, (int, int)>) {
    && dir.Keys <= bf
    && (forall e, w :: e !in dir ==> Get(x, e, w) == Get(x0, e, w))
    && (forall e :: e in dir ==>
          && 0 <= e < |g.edges| && EndsOf(g, e, dir[e].1, dir[e].0) && dir[e].0 != dir[e].1
          && Get(x, e, dir[e].1) == 1.0 && Get(x, e, dir[e].0) == 0.0)
    && (forall e1, e2 :: e1 in dir && e2 in dir && dir[e1].1 == dir[e2].1 ==> e1 == e2)
  }

  /** Oriented edges become integral and leave the fractional set; nothing else changes. */
  lemma TreeOrientedShrinks(g: Graph, bf: set<int>, x0: map<(int, int), real>, x: map<(int, int), real>,
                            dir: map<int, (int, int)>)
    requires TreeOriented(g, bf, x0, x, dir)
    ensures FractionalSet(g, x, Epsilon) == FractionalSet(g, x0, Epsilon) - dir.Keys
  {
    forall e | e in dir.Keys && 0 <= e < |g.edges|
      ensures Integral(Get(x, e, g.edges[e].0)) && Integral(Get(x, e, g.edges[e].1))
    {
      assert Get(x, e, dir[e].1) == 1.0 && Get(x, e, dir[e].0) == 0.0;
    }
    FractionalSetAfterIntegralising(g, x0, x, Epsilon, dir.Keys);
  }

  /**
   * Tree t was oriented away from root: root is reached; every oriented edge
   * runs between reached vertices and into a vertex other than root; every
   * reached vertex but root receives an oriented edge; every vertex joined
   * to a reached one by an edge of t is reached; and each oriented edge is
   * the first edge of t joining its two ends.
   */
  ghost predicate OrientedAwayFrom(g: Graph, t: set<int>, root: int, visited: set<int>, dir: map<int, (int, int)>) {
    && root in visited
    && dir.Keys <= t
    && (forall e :: e in dir ==> dir[e].0 in visited && dir[e].1 in visited && dir[e].1 != root)
    && (forall w :: w in visited && w != root ==> exists e :: e in dir && dir[e].1 == w)
    && (forall e, a :: e in t && a in visited && Touches(g, e, a) ==> Other(g, e, a) in visited)
    && (forall e :: e in dir ==> FirstJoining(g, t, e, dir[e].0, dir[e].1))
  }

  /** The final state of the search from leaf is an orientation away from leaf. */
  lemma SearchOrientsAway(g: Graph, t: set<int>, x0: map<(int, int), real>, x: map<(int, int), real>,
                          leaf: int, visited: set<int>, dir: map<int, (int, int)>, into: map<int, int>)
    requires OrientState(g, t, x0, x, leaf, visited, dir, into)
    requires forall e, a :: e in t && a in visited && Touches(g, e, a) ==> Other(g, e, a) in visited
    ensures OrientedAwayFrom(g, t, leaf, visited, dir)
  {
    forall w | w in visited && w != leaf ensures exists e :: e in dir && dir[e].1 == w {
      assert w in into.Keys;
      var e := into[w];
      assert e in dir && dir[e].1 == w;
    }
  }

  /**
   * The tree assignment started at big fractional edge k: take the
   * component T of k, the first vertex of T of degree one in T, and orient
   * T away from it. It orients exactly when T has such a vertex, and then
   * something whenever no edge is a self-loop.
   */
  method OrientComponent(s: Solution, g: Graph, bf: set<int>, k: int)
    returns (oriented: bool, ghost dir: map<int, (int, int)>, ghost visited: set<int>)
    requires forall e :: e in bf ==> 0 <= e < |g.edges|
    requires k in bf
    modifies s
    ensures oriented <==> TreeRoot(g, ComponentOf(g, bf, k)).Some?
    ensures oriented ==> OrientedAwayFrom(g, ComponentOf(g, bf, k), TreeRoot(g, ComponentOf(g, bf, k)).value, visited, dir)
    ensures oriented ==> s.x == OrientAway(g, ComponentOf(g, bf, k), old(s.x), TreeRoot(g, ComponentOf(g, bf, k)).value)
    ensures TreeOriented(g, bf, old(s.x), s.x, dir)
    ensures !oriented ==> s.x == old(s.x) && dir == map[]
    ensures oriented && NoSelfLoops(g, bf) ==> dir != map[]
  {
    var tEdges := ComponentEdges(g, bf, k);
    var tVertices := TreeVertices(g, tEdges);
    var leaf := FirstTreeLeaf(g, tEdges, tVertices);
    if leaf.Some? {
      ghost var into;
      visited, dir, into := OrientTree(s, g, tEdges, leaf.value);
      SearchOrientsAway(g, tEdges, old(s.x), s.x, leaf.value, visited, dir, into);
      oriented := true;
      if NoSelfLoops(g, bf) {
        NonEmptyHasElement(IncidentIn(g, tEdges, leaf.value));
        var e0 :| e0 in IncidentIn(g, tEdges, leaf.value);
        var other := Other(g, e0, leaf.value);
        assert other in visited && other != leaf.value;
        assert into[other] in dir;
      }
    } else {
      oriented, dir, visited := false, map[], {};
    }
  }

  /** End w of big fractional edge e starts a tree assignment: big-degree one and more than 0.75 of p_e there. */
  predicate TreeTriggerEnd(g: Graph, x: map<(int, int), real>, bf: set<int>, e: int, w: int) {
    DegreeIn(g, bf, w) == 1 && Get(x, e, w) * EdgeWeight(g, e) > LeafBound
  }

  /** Edge e of bf has an end that starts a tree assignment, and its component has a leaf to orient it from. */
  ghost predicate Fires(g: Graph, x: map<(int, int), real>, bf: set<int>, e: int) {
    && e in bf && 0 <= e < |g.edges|
    && (TreeTriggerEnd(g, x, bf, e, g.edges[e].0) || TreeTriggerEnd(g, x, bf, e, g.edges[e].1))
    && TreeRoot(g, ComponentOf(g, bf, e)).Some?
  }

  /** The first edge from index k on at which the tree assignment fires. */
  ghost function FirstFiring(g: Graph, x: map<(int, int), real>, bf: set<int>, k: nat): Option<int>
    decreases |g.edges| - k
  {
    if k >= |g.edges| then None
    else if Fires(g, x, bf, k) then Some(k)
    else FirstFiring(g, x, bf, k + 1)
  }

  /** The edge found from k on fires and no edge between k and it does; none is found only when no edge from k on fires. */
  lemma {:induction false} FirstFiringFacts(g: Graph, x: map<(int, int), real>, bf: set<int>, k: nat)
    ensures FirstFiring(g, x, bf, k).Some? ==>
      var e := FirstFiring(g, x, bf, k).value;
      k <= e && Fires(g, x, bf, e) && forall e' :: k <= e' < e ==> !Fires(g, x, bf, e')
    ensures FirstFiring(g, x, bf, k).None? ==> forall e :: k <= e ==> !Fires(g, x, bf, e)
    decreases |g.edges| - k
  {
    if k < |g.edges| && !Fires(g, x, bf, k) {
      FirstFiringFacts(g, x, bf, k + 1);
    }
  }

  /** The check at end w of big fractional edge k: a trigger orients the component of k when it has a leaf. */
  method TreeAtEnd(s: Solution, g: Graph, bf: set<int>, k: int, w: int)
    returns (treeAssigned: bool, ghost dir: map<int, (int, int)>, ghost visited: set<int>)
    requires forall e :: e in bf ==> 0 <= e < |g.edges|
    requires k in bf
    modifies s
    ensures treeAssigned <==> TreeTriggerEnd(g, old(s.x), bf, k, w) && TreeRoot(g, ComponentOf(g, bf, k)).Some?
    ensures treeAssigned ==> OrientedAwayFrom(g, ComponentOf(g, bf, k), TreeRoot(g, ComponentOf(g, bf, k)).value, visited, dir)
    ensures treeAssigned ==> s.x == OrientAway(g, ComponentOf(g, bf, k), old(s.x), TreeRoot(g, ComponentOf(g, bf, k)).value)
    ensures TreeOriented(g, bf, old(s.x), s.x, dir)
    ensures !treeAssigned ==> s.x == old(s.x) && dir == map[]
    ensures treeAssigned && NoSelfLoops(g, bf) ==> dir != map[]
  {
    treeAssigned, dir, visited := false, map[], {};
    var xw := Get(s.x, k, w);
    var dw := Degree(g, bf, w);
    if dw == 1 {
      var p := EdgeWeight(g, k);
      if xw * p > LeafBound {
        treeAssigned, dir, visited := OrientComponent(s, g, bf, k);
      }
    }
  }

  /**
   * The checks at big fractional edge k, the first end before the second.
   * It assigns exactly when the tree assignment fires at k.
   */
  method TreeAt(s: Solution, g: Graph, bf: set<int>, k: int)
    returns (treeAssigned: bool, ghost dir: map<int, (int, int)>, ghost visited: set<int>)
    requires forall e :: e in bf ==> 0 <= e < |g.edges|
    requires 0 <= k < |g.edges|
    modifies s
    ensures treeAssigned <==> Fires(g, old(s.x), bf, k)
    ensures treeAssigned ==> OrientedAwayFrom(g, ComponentOf(g, bf, k), TreeRoot(g, ComponentOf(g, bf, k)).value, visited, dir)
    ensures treeAssigned ==> s.x == OrientAway(g, ComponentOf(g, bf, k), old(s.x), TreeRoot(g, ComponentOf(g, bf, k)).value)
    ensures TreeOriented(g, bf, old(s.x), s.x, dir)
    ensures !treeAssigned ==> s.x == old(s.x) && dir == map[]
    ensures treeAssigned && NoSelfLoops(g, bf) ==> dir != map[]
  {
    treeAssigned, dir, visited := false, map[], {};
    if k in bf {
      var (u, v) := g.edges[k];
      treeAssigned, dir, visited := TreeAtEnd(s, g, bf, k, u);
      if !treeAssigned {
        treeAssigned, dir, visited := TreeAtEnd(s, g, bf, k, v);
      }
    }
  }

  /**
   * The tree step of one iteration, after the leaf scan found nothing: scan
   * the big fractional edges in index order. It assigns exactly when some
   * edge fires, and then orients the component of the first such edge away
   * from that component's root. Each vertex receives at most one of the
   * oriented edges, the oriented edges leave the fractional set, and
   * nothing else changes.
   */
  method TreeStep(s: Solution, g: Graph, bf: set<int>)
    returns (treeAssigned: bool, ghost dir: map<int, (int, int)>, ghost visited: set<int>)
    requires forall e :: e in bf ==> 0 <= e < |g.edges|
    modifies s
    ensures treeAssigned <==> FirstFiring(g, old(s.x), bf, 0).Some?
    ensures treeAssigned ==>
      var t := ComponentOf(g, bf, FirstFiring(g, old(s.x), bf, 0).value);
      TreeRoot(g, t).Some? && OrientedAwayFrom(g, t, TreeRoot(g, t).value, visited, dir)
      && s.x == OrientAway(g, t, old(s.x), TreeRoot(g, t).value)
    ensures TreeOriented(g, bf, old(s.x), s.x, dir)
    ensures FractionalSet(g, s.x, Epsilon) == FractionalSet(g, old(s.x), Epsilon) - dir.Keys
    ensures !treeAssigned ==> s.x == old(s.x) && dir == map[]
    ensures treeAssigned && NoSelfLoops(g, bf) ==> dir != map[]
  {
    for k := 0 to |g.edges|
      invariant s.x == old(s.x)
      invariant FirstFiring(g, old(s.x), bf, 0) == FirstFiring(g, old(s.x), bf, k)
    {
      treeAssigned, dir, visited := TreeAt(s, g, bf, k);
      if treeAssigned {
        TreeOrientedShrinks(g, bf, old(s.x), s.x, dir);
        return;
      }
    }
    return false, map[], {};
  }

  // ---------------------------------------------------------------------
  // The search on a component with a cycle

  /** A triangle 1, 2, 3 with a tail from 0: edges (0, 1), (1, 2), (1, 3), (2, 3), all big. */
  function TailedTriangle(): Graph {
    Graph([0, 1, 2, 3], [(0, 1), (1, 2), (1, 3), (2, 3)], map[0 := 1.0, 1 := 1.0, 2 := 1.0, 3 := 1.0], map[])
  }

  /** Every edge of the tailed triangle split half and half between its ends. */
  function HalfValues(): map<(int, int), real> {
    map[(0, 0) := 0.5, (0, 1) := 0.5, (1, 1) := 0.5, (1, 2) := 0.5, (2, 1) := 0.5, (2, 3) := 0.5, (3, 2) := 0.5, (3, 3) := 0.5]
  }

  /** From vertex 0 the scan gives edge 0 to vertex 1. */
  lemma TailedTriangleVisitsRoot()
    ensures VisitFrom(TailedTriangle(), {0, 1, 2, 3}, 0, 0, Search(HalfValues(), {0}, []))
         == Search(AssignedTo(HalfValues(), 0, 1, 0), {0, 1}, [1])
  {
    var g, t, x := TailedTriangle(), {0, 1, 2, 3}, HalfValues();
    var st := Search(AssignedTo(x, 0, 1, 0), {0, 1}, [1]);
    assert FirstJoiningFrom(g, t, 0, 1, 0) == Some(0);
    assert VisitEdgeStep(g, t, 0, 0, Search(x, {0}, [])) == st;
    assert VisitFrom(g, t, 0, 1, st) == VisitFrom(g, t, 0, 2, st) == VisitFrom(g, t, 0, 3, st) == st;
  }

  /** From vertex 1 the scan gives edge 1 to vertex 2 and edge 2 to vertex 3, in that order. */
  lemma TailedTriangleVisitsHub()
    ensures VisitFrom(TailedTriangle(), {0, 1, 2, 3}, 1, 0, Search(AssignedTo(HalfValues(), 0, 1, 0), {0, 1}, []))
         == Search(AssignedTo(AssignedTo(AssignedTo(HalfValues(), 0, 1, 0), 1, 2, 1), 2, 3, 1), {0, 1, 2, 3}, [2, 3])
  {
    var g, t, x := TailedTriangle(), {0, 1, 2, 3}, AssignedTo(HalfValues(), 0, 1, 0);
    var st0 := Search(x, {0, 1}, []);
    assert VisitEdgeStep(g, t, 1, 0, st0) == st0;
    assert FirstJoiningFrom(g, t, 1, 2, 0) == Some(1);
    var st1 := Search(AssignedTo(x, 1, 2, 1), {0, 1, 2}, [2]);
    assert VisitEdgeStep(g, t, 1, 1, st0) == st1;
    assert FirstJoiningFrom(g, t, 1, 3, 0) == Some(2);
    var st2 := Search(AssignedTo(AssignedTo(x, 1, 2, 1), 2, 3, 1), {0, 1, 2, 3}, [2, 3]);
    assert VisitEdgeStep(g, t, 1, 2, st1) == st2;
    assert VisitEdgeStep(g, t, 1, 3, st2) == st2;
    assert VisitFrom(g, t, 1, 3, st2) == st2;
  }

  /** Vertices 2 and 3 find every neighbour visited, so edge 3, joining them, is never oriented. */
  lemma TailedTriangleVisitsRest(x: map<(int, int), real>)
    ensures VisitFrom(TailedTriangle(), {0, 1, 2, 3}, 2, 0, Search(x, {0, 1, 2, 3}, [3])) == Search(x, {0, 1, 2, 3}, [3])
    ensures VisitFrom(TailedTriangle(), {0, 1, 2, 3}, 3, 0, Search(x, {0, 1, 2, 3}, [])) == Search(x, {0, 1, 2, 3}, [])
  {
    var g, t := TailedTriangle(), {0, 1, 2, 3};
    var st := Search(x, {0, 1, 2, 3}, [3]);
    assert VisitFrom(g, t, 2, 0, st) == VisitFrom(g, t, 2, 2, st) == VisitFrom(g, t, 2, 4, st);
    var st' := Search(x, {0, 1, 2, 3}, []);
    assert VisitFrom(g, t, 3, 0, st') == VisitFrom(g, t, 3, 2, st') == VisitFrom(g, t, 3, 4, st');
  }

  /**
   * On the tailed triangle, the search from vertex 0 assigns edge 0 to 1,
   * edge 1 to 2 and edge 2 to 3, in that order, reaches every vertex, and
   * never assigns edge 3: of the cycle 1, 2, 3 it orients exactly edges 1
   * and 2.
   */
  lemma TailedTriangleOrientation()
    ensures Bfs(TailedTriangle(), {0, 1, 2, 3}, Search(HalfValues(), {0}, [0]))
         == Search(AssignedTo(AssignedTo(AssignedTo(HalfValues(), 0, 1, 0), 1, 2, 1), 2, 3, 1), {0, 1, 2, 3}, [])
    ensures OrientAway(TailedTriangle(), {0, 1, 2, 3}, HalfValues(), 0)
         == AssignedTo(AssignedTo(AssignedTo(HalfValues(), 0, 1, 0), 1, 2, 1), 2, 3, 1)
  {
    var g, t, x := TailedTriangle(), {0, 1, 2, 3}, HalfValues();
    var x1 := AssignedTo(x, 0, 1, 0);
    var x3 := AssignedTo(AssignedTo(x1, 1, 2, 1), 2, 3, 1);
    var all := {0, 1, 2, 3};
    assert [0][1..] == [] && [1][1..] == [] && [2, 3][1..] == [3] && [3][1..] == [];
    TailedTriangleVisitsRoot();
    assert Bfs(g, t, Search(x, {0}, [0])) == Bfs(g, t, Search(x1, {0, 1}, [1]));
    TailedTriangleVisitsHub();
    assert Bfs(g, t, Search(x1, {0, 1}, [1])) == Bfs(g, t, Search(x3, all, [2, 3]));
    TailedTriangleVisitsRest(x3);
    assert Bfs(g, t, Search(x3, all, [2, 3])) == Bfs(g, t, Search(x3, all, [3]));
    assert Bfs(g, t, Search(x3, all, [3])) == Bfs(g, t, Search(x3, all, []));
  }
}
