/**
 * The cycle finder: a depth-first walk over the fractional edges that, at
 * every vertex, tries the incident fractional edges big edges first and,
 * among those, higher edge index first. It returns the stretch of the walk
 * from the first visit of a vertex the walk comes back to. Each entry is
 * directed from the endpoint holding the larger x value (ties go to the
 * far endpoint), whatever the direction of travel; the walk does not
 * exclude the edge it arrived by, so a "cycle" may repeat an edge.
 *
 * The walk comes twice: as the recursive method the source runs (Walk,
 * started by FindCycle) and as the function that specifies it (WalkFrom
 * with TryItems), which the method's ensures names and the lemmas reason
 * about.
 */
module CycleFinder {
  import opened Core
  import opened Rotation

  /** An adjacency item: an edge index and the vertex at its other end. */
  type Adj = (int, int)

  /** The endpoint of edge e that is not w (w itself for a self-loop). */
  function Other(g: Graph, e: int, w: int): int
    requires 0 <= e < |g.edges|
  {
    if g.edges[e].0 == w then g.edges[e].1 else g.edges[e].0
  }

  /** The items edge e adds to w's adjacency list: one per end of e that is w. */
  function ItemsAt(g: Graph, e: int, w: int): seq<Adj>
    requires 0 <= e < |g.edges|
  {
    (if g.edges[e].0 == w then [(e, g.edges[e].1)] else [])
    + (if g.edges[e].1 == w then [(e, g.edges[e].0)] else [])
  }

  /** The items edge n - 1 contributes to the part of the list of kind `big`. */
  function Here(g: Graph, f: set<int>, b: set<int>, big: bool, w: int, n: nat): seq<Adj>
    requires 0 < n <= |g.edges|
  {
    if n - 1 in f && (n - 1 in b) == big then ItemsAt(g, n - 1, w) else []
  }

  /** The items of the edges below n in f whose bigness is `big`, highest index first. */
  function Descending(g: Graph, f: set<int>, b: set<int>, big: bool, w: int, n: nat): seq<Adj>
    requires n <= |g.edges|
  {
    if n == 0 then [] else Here(g, f, b, big, w, n) + Descending(g, f, b, big, w, n - 1)
  }

  /** Every item edge e adds to w's list names e and its other end, and there is one exactly when e touches w. */
  lemma ItemsAtFacts(g: Graph, e: int, w: int)
    requires 0 <= e < |g.edges|
    ensures forall i :: 0 <= i < |ItemsAt(g, e, w)| ==> ItemsAt(g, e, w)[i] == (e, Other(g, e, w))
    ensures |ItemsAt(g, e, w)| > 0 <==> Touches(g, e, w)
  {
  }

  /** An item of w's list: a fractional edge touching w and the vertex at its other end. */
  predicate ItemOk(g: Graph, f: set<int>, w: int, a: Adj) {
    a.0 in f && Touches(g, a.0, w) && a.1 == Other(g, a.0, w)
  }

  lemma HereFacts(g: Graph, f: set<int>, b: set<int>, big: bool, w: int, n: nat)
    requires 0 < n <= |g.edges|
    ensures forall i :: 0 <= i < |Here(g, f, b, big, w, n)| ==>
      Here(g, f, b, big, w, n)[i] == (n - 1, Other(g, n - 1, w)) && ItemOk(g, f, w, (n - 1, Other(g, n - 1, w))) && (n - 1 in b) == big
    ensures n - 1 in f && (n - 1 in b) == big && Touches(g, n - 1, w) ==> |Here(g, f, b, big, w, n)| > 0
  {
    ItemsAtFacts(g, n - 1, w);
    if n - 1 in f && (n - 1 in b) == big {
      assert Here(g, f, b, big, w, n) == ItemsAt(g, n - 1, w);
      if |ItemsAt(g, n - 1, w)| > 0 {
        assert ItemOk(g, f, w, (n - 1, Other(g, n - 1, w)));
      }
    } else {
      assert Here(g, f, b, big, w, n) == [];
    }
  }

  /** Each item of the kind-`big` part is a fractional edge below n of that kind touching w. */
  lemma {:induction false} DescendingItemsOk(g: Graph, f: set<int>, b: set<int>, big: bool, w: int, n: nat)
    requires n <= |g.edges|
    ensures forall i :: 0 <= i < |Descending(g, f, b, big, w, n)| ==>
      ItemOk(g, f, w, Descending(g, f, b, big, w, n)[i]) && Descending(g, f, b, big, w, n)[i].0 < n
      && (Descending(g, f, b, big, w, n)[i].0 in b) == big
  {
    if n > 0 {
      DescendingItemsOk(g, f, b, big, w, n - 1);
      HereFacts(g, f, b, big, w, n);
      var here := Here(g, f, b, big, w, n);
      var rest := Descending(g, f, b, big, w, n - 1);
      forall i | 0 <= i < |here + rest|
        ensures ItemOk(g, f, w, (here + rest)[i]) && (here + rest)[i].0 < n && ((here + rest)[i].0 in b) == big
      {
        if i >= |here| {
          assert (here + rest)[i] == rest[i - |here|];
        }
      }
    }
  }

  /** The kind-`big` part holds an item for every fractional edge below n of that kind touching w. */
  lemma {:induction false} DescendingHasAll(g: Graph, f: set<int>, b: set<int>, big: bool, w: int, n: nat)
    requires n <= |g.edges|
    ensures forall e :: e in f && 0 <= e < n && (e in b) == big && Touches(g, e, w) ==>
      (e, Other(g, e, w)) in Descending(g, f, b, big, w, n)
  {
    if n > 0 {
      DescendingHasAll(g, f, b, big, w, n - 1);
      HereFacts(g, f, b, big, w, n);
      var here := Here(g, f, b, big, w, n);
      var rest := Descending(g, f, b, big, w, n - 1);
      forall e | e in f && 0 <= e < n && (e in b) == big && Touches(g, e, w)
        ensures (e, Other(g, e, w)) in here + rest
      {
        if e == n - 1 {
          assert (here + rest)[0] == here[0];
        } else {
          assert (e, Other(g, e, w)) in rest;
        }
      }
    }
  }

  /** The kind-`big` part is in descending edge order. */
  lemma {:induction false} DescendingSorted(g: Graph, f: set<int>, b: set<int>, big: bool, w: int, n: nat)
    requires n <= |g.edges|
    ensures forall i, j :: 0 <= i < j < |Descending(g, f, b, big, w, n)| ==>
      Descending(g, f, b, big, w, n)[i].0 >= Descending(g, f, b, big, w, n)[j].0
  {
    if n > 0 {
      DescendingSorted(g, f, b, big, w, n - 1);
      DescendingItemsOk(g, f, b, big, w, n - 1);
      HereFacts(g, f, b, big, w, n);
      var here := Here(g, f, b, big, w, n);
      var rest := Descending(g, f, b, big, w, n - 1);
      var r := here + rest;
      forall i, j | 0 <= i < j < |r| ensures r[i].0 >= r[j].0 {
        if j < |here| {
          assert r[i] == here[i] && r[j] == here[j];
        } else if i < |here| {
          assert r[i] == here[i] && r[i].0 == n - 1;
          assert r[j] == rest[j - |here|] && r[j].0 < n;
        } else {
          assert r[i] == rest[i - |here|] && r[j] == rest[j - |here|];
        }
      }
    }
  }

  /** w's list in the order the walk tries it: sorted in reverse on (is big, edge index). */
  function Adjacency(g: Graph, f: set<int>, b: set<int>, w: int): seq<Adj> {
    Descending(g, f, b, true, w, |g.edges|) + Descending(g, f, b, false, w, |g.edges|)
  }

  /** Big edges first, and higher edge indices first among edges of the same kind. */
  predicate SortedBigFirst(b: set<int>, r: seq<Adj>) {
    forall i, j :: 0 <= i < j < |r| ==>
      (r[i].0 in b && r[j].0 !in b) || ((r[i].0 in b) == (r[j].0 in b) && r[i].0 >= r[j].0)
  }

  /**
   * w's list holds exactly the items of the fractional edges touching w,
   * each naming the other end, big edges first and higher indices first.
   */
  lemma AdjacencyItems(g: Graph, f: set<int>, b: set<int>, w: int)
    ensures forall i :: 0 <= i < |Adjacency(g, f, b, w)| ==> ItemOk(g, f, w, Adjacency(g, f, b, w)[i])
    ensures forall e :: e in f && Touches(g, e, w) ==> (e, Other(g, e, w)) in Adjacency(g, f, b, w)
    ensures SortedBigFirst(b, Adjacency(g, f, b, w))
  {
    AdjacencyItemsOk(g, f, b, w);
    AdjacencyHasAll(g, f, b, w);
    AdjacencySorted(g, f, b, w);
  }

  lemma AdjacencyItemsOk(g: Graph, f: set<int>, b: set<int>, w: int)
    ensures forall i :: 0 <= i < |Adjacency(g, f, b, w)| ==> ItemOk(g, f, w, Adjacency(g, f, b, w)[i])
  {
    DescendingItemsOk(g, f, b, true, w, |g.edges|);
    DescendingItemsOk(g, f, b, false, w, |g.edges|);
    var big := Descending(g, f, b, true, w, |g.edges|);
    var small := Descending(g, f, b, false, w, |g.edges|);
    forall i | 0 <= i < |big + small| ensures ItemOk(g, f, w, (big + small)[i]) {
      if i >= |big| {
        assert (big + small)[i] == small[i - |big|];
      }
    }
  }

  lemma AdjacencyHasAll(g: Graph, f: set<int>, b: set<int>, w: int)
    ensures forall e :: e in f && Touches(g, e, w) ==> (e, Other(g, e, w)) in Adjacency(g, f, b, w)
  {
    DescendingHasAll(g, f, b, true, w, |g.edges|);
    DescendingHasAll(g, f, b, false, w, |g.edges|);
  }

  lemma AdjacencySorted(g: Graph, f: set<int>, b: set<int>, w: int)
    ensures SortedBigFirst(b, Adjacency(g, f, b, w))
  {
    DescendingItemsOk(g, f, b, true, w, |g.edges|);
    DescendingItemsOk(g, f, b, false, w, |g.edges|);
    DescendingSorted(g, f, b, true, w, |g.edges|);
    DescendingSorted(g, f, b, false, w, |g.edges|);
    var big := Descending(g, f, b, true, w, |g.edges|);
    var small := Descending(g, f, b, false, w, |g.edges|);
    var r := big + small;
    forall i, j | 0 <= i < j < |r|
      ensures (r[i].0 in b && r[j].0 !in b) || ((r[i].0 in b) == (r[j].0 in b) && r[i].0 >= r[j].0)
    {
      if j < |big| {
      } else if i < |big| {
        assert r[j] == small[j - |big|];
      } else {
        assert r[i] == small[i - |big|] && r[j] == small[j - |big|];
      }
    }
  }

  /** The vertices that are endpoints of edges below n in f. */
  function SupportUpTo(g: Graph, f: set<int>, n: nat): (s: set<int>)
    requires n <= |g.edges|
    ensures forall e :: e in f && 0 <= e < n ==> g.edges[e].0 in s && g.edges[e].1 in s
  {
    if n == 0 then {}
    else SupportUpTo(g, f, n - 1) + (if n - 1 in f then {g.edges[n - 1].0, g.edges[n - 1].1} else {})
  }

  /** The vertices the walk can mark: the endpoints of fractional edges. */
  function SupportVertices(g: Graph, f: set<int>): set<int> {
    SupportUpTo(g, f, |g.edges|)
  }

  /** A vertex with a non-empty list is an endpoint of a fractional edge. */
  lemma AdjacencyInSupport(g: Graph, f: set<int>, b: set<int>, w: int)
    requires |Adjacency(g, f, b, w)| > 0
    ensures w in SupportVertices(g, f)
  {
    AdjacencyItems(g, f, b, w);
    var e := Adjacency(g, f, b, w)[0].0;
    assert g.edges[e].0 in SupportVertices(g, f) && g.edges[e].1 in SupportVertices(g, f);
  }

  /** Marking one more vertex of s shrinks the unmarked part of s by one. */
  lemma MarkShrinks(s: set<int>, visited: map<int, nat>, v: int, n: nat)
    requires v in s && v !in visited
    ensures |s - visited[v := n].Keys| + 1 == |s - visited.Keys|
  {
    assert s - visited[v := n].Keys == (s - visited.Keys) - {v};
  }

  /**
   * The entry for travelling edge e from w to its other end: directed from
   * the larger x value, and towards w on a tie.
   */
  function Direct(x: map<(int, int), real>, e: int, w: int, other: int): (r: Entry)
    ensures r.0 == e && (r.1 == (w, other) || r.1 == (other, w))
    ensures Get(x, e, r.1.0) >= Get(x, e, r.1.1)
    ensures Get(x, e, w) == Get(x, e, other) ==> r.1 == (other, w)
  {
    if Get(x, e, w) > Get(x, e, other) then (e, (w, other)) else (e, (other, w))
  }

  /** The walk, as a function: the result of visiting `vertex` with the given visit marks and path. */
  function WalkFrom(g: Graph, x: map<(int, int), real>, f: set<int>, b: set<int>,
                    vertex: int, visited: map<int, nat>, path: seq<Entry>): Option<seq<Entry>>
    requires forall v :: v in visited ==> visited[v] <= |path|
    decreases |SupportVertices(g, f) - visited.Keys|, 1
  {
    if vertex in visited then
      var cycle := path[visited[vertex]..];
      if |cycle| > 0 then Some(cycle) else None
    else if |Adjacency(g, f, b, vertex)| == 0 then None
    else
      AdjacencyInSupport(g, f, b, vertex);
      MarkShrinks(SupportVertices(g, f), visited, vertex, |path|);
      TryItems(g, x, f, b, vertex, visited[vertex := |path|], path, 0)
  }

  /** Try w's adjacency items from index i on; the first walk that finds a cycle wins. */
  function TryItems(g: Graph, x: map<(int, int), real>, f: set<int>, b: set<int>,
                    w: int, visited: map<int, nat>, path: seq<Entry>, i: nat): Option<seq<Entry>>
    requires forall v :: v in visited ==> visited[v] <= |path|
    requires w in visited
    decreases |SupportVertices(g, f) - visited.Keys| + 1, 0, |Adjacency(g, f, b, w)| - i
  {
    var items := Adjacency(g, f, b, w);
    if i >= |items| then None
    else
      var (e, other) := items[i];
      var res := WalkFrom(g, x, f, b, other, visited, path + [Direct(x, e, w, other)]);
      if res.Some? then res else TryItems(g, x, f, b, w, visited, path, i + 1)
  }

  /** The walk as the recursive procedure: mark, try every item in order, unmark on failure. */
  method Walk(g: Graph, x: map<(int, int), real>, f: set<int>, b: set<int>,
              vertex: int, visited: map<int, nat>, path: seq<Entry>) returns (r: Option<seq<Entry>>)
    requires forall v :: v in visited ==> visited[v] <= |path|
    ensures r == WalkFrom(g, x, f, b, vertex, visited, path)
    decreases |SupportVertices(g, f) - visited.Keys|
  {
    if vertex in visited {
      var cycleStart := visited[vertex];
      var cycleEdges := path[cycleStart..];
      if |cycleEdges| > 0 {
        return Some(cycleEdges);
      }
      return None;
    }
    var marked := visited[vertex := |path|];
    var incident := Adjacency(g, f, b, vertex);
    if |incident| > 0 {
      AdjacencyInSupport(g, f, b, vertex);
      MarkShrinks(SupportVertices(g, f), visited, vertex, |path|);
    }
    for i := 0 to |incident|
      invariant WalkFrom(g, x, f, b, vertex, visited, path) == TryItems(g, x, f, b, vertex, marked, path, i)
    {
      var (e, other) := incident[i];
      var entry := Direct(x, e, vertex, other);
      var result := Walk(g, x, f, b, other, marked, path + [entry]);
      if result.Some? {
        return result;
      }
    }
    return None;
  }

  // ---------------------------------------------------------------------
  // What the walk returns

  /** An entry names a fractional edge, its two endpoints, and starts at the larger value. */
  predicate EntryOk(g: Graph, x: map<(int, int), real>, f: set<int>, c: Entry) {
    && c.0 in f && 0 <= c.0 < |g.edges|
    && (c.1 == g.edges[c.0] || c.1 == (g.edges[c.0].1, g.edges[c.0].0))
    && Get(x, c.0, c.1.0) >= Get(x, c.0, c.1.1)
  }

  predicate PathOk(g: Graph, x: map<(int, int), real>, f: set<int>, p: seq<Entry>) {
    forall i :: 0 <= i < |p| ==> EntryOk(g, x, f, p[i])
  }

  /**
   * Whatever the walk returns is a non-empty list of entries, each on a
   * fractional edge, naming that edge's endpoints and starting at the
   * endpoint with the larger value.
   */
  lemma WalkFromPathOk(g: Graph, x: map<(int, int), real>, f: set<int>, b: set<int>,
                       vertex: int, visited: map<int, nat>, path: seq<Entry>)
    requires forall v :: v in visited ==> visited[v] <= |path|
    requires PathOk(g, x, f, path)
    ensures var r := WalkFrom(g, x, f, b, vertex, visited, path);
      r.Some? ==> |r.value| > 0 && PathOk(g, x, f, r.value)
    decreases |SupportVertices(g, f) - visited.Keys|, 1
  {
    if vertex in visited {
      if visited[vertex] < |path| {
        WalkFromVisited(g, x, f, b, vertex, visited, path);
        PathOkSuffix(g, x, f, path, visited[vertex]);
      }
    } else if |Adjacency(g, f, b, vertex)| > 0 {
      WalkFromEnters(g, x, f, b, vertex, visited, path);
      AdjacencyInSupport(g, f, b, vertex);
      MarkShrinks(SupportVertices(g, f), visited, vertex, |path|);
      TryItemsPathOk(g, x, f, b, vertex, visited[vertex := |path|], path, 0);
    }
  }

  /** Every suffix of a well-formed path is well-formed. */
  lemma PathOkSuffix(g: Graph, x: map<(int, int), real>, f: set<int>, path: seq<Entry>, k: nat)
    requires k <= |path| && PathOk(g, x, f, path)
    ensures PathOk(g, x, f, path[k..])
  {
    forall i | 0 <= i < |path| - k ensures EntryOk(g, x, f, path[k..][i]) {
      assert path[k..][i] == path[k + i];
    }
  }

  lemma TryItemsPathOk(g: Graph, x: map<(int, int), real>, f: set<int>, b: set<int>,
                       w: int, visited: map<int, nat>, path: seq<Entry>, i: nat)
    requires forall v :: v in visited ==> visited[v] <= |path|
    requires w in visited
    requires PathOk(g, x, f, path)
    ensures var r := TryItems(g, x, f, b, w, visited, path, i);
      r.Some? ==> |r.value| > 0 && PathOk(g, x, f, r.value)
    decreases |SupportVertices(g, f) - visited.Keys| + 1, 0, |Adjacency(g, f, b, w)| - i
  {
    var items := Adjacency(g, f, b, w);
    if i < |items| {
      var (e, other) := items[i];
      AdjacencyItems(g, f, b, w);
      var c := Direct(x, e, w, other);
      assert EntryOk(g, x, f, c);
      WalkFromPathOk(g, x, f, b, other, visited, path + [c]);
      TryItemsPathOk(g, x, f, b, w, visited, path, i + 1);
    }
  }

  /** A vertex already on the path closes a cycle at once. */
  lemma WalkFromVisited(g: Graph, x: map<(int, int), real>, f: set<int>, b: set<int>,
                        vertex: int, visited: map<int, nat>, path: seq<Entry>)
    requires forall v :: v in visited ==> visited[v] <= |path|
    requires vertex in visited && visited[vertex] < |path|
    ensures WalkFrom(g, x, f, b, vertex, visited, path) == Some(path[visited[vertex]..])
  {
  }

  /** A new vertex with fractional edges is marked with the path length and its items are tried. */
  lemma WalkFromEnters(g: Graph, x: map<(int, int), real>, f: set<int>, b: set<int>,
                       vertex: int, visited: map<int, nat>, path: seq<Entry>)
    requires forall v :: v in visited ==> visited[v] <= |path|
    requires vertex !in visited && |Adjacency(g, f, b, vertex)| > 0
    ensures WalkFrom(g, x, f, b, vertex, visited, path) == TryItems(g, x, f, b, vertex, visited[vertex := |path|], path, 0)
  {
  }

  /** If walking the first item finds a cycle, so does trying the items. */
  lemma TryItemsHead(g: Graph, x: map<(int, int), real>, f: set<int>, b: set<int>,
                     w: int, visited: map<int, nat>, path: seq<Entry>)
    requires forall v :: v in visited ==> visited[v] <= |path|
    requires w in visited && |Adjacency(g, f, b, w)| > 0
    ensures var (e, other) := Adjacency(g, f, b, w)[0];
      WalkFrom(g, x, f, b, other, visited, path + [Direct(x, e, w, other)]).Some? ==> TryItems(g, x, f, b, w, visited, path, 0).Some?
  {
  }

  /**
   * The walk always finds a cycle from a vertex that is on the path, and
   * from an unvisited vertex with at least one fractional edge: the first
   * item it tries either comes back to a visited vertex at once or reaches
   * a new vertex whose list holds the edge just travelled.
   */
  lemma {:induction false} WalkFromFinds(g: Graph, x: map<(int, int), real>, f: set<int>, b: set<int>,
                                         vertex: int, visited: map<int, nat>, path: seq<Entry>)
    requires forall v :: v in visited ==> visited[v] <= |path|
    requires (vertex in visited && visited[vertex] < |path|) || (vertex !in visited && |Adjacency(g, f, b, vertex)| > 0)
    ensures WalkFrom(g, x, f, b, vertex, visited, path).Some?
    decreases |SupportVertices(g, f) - visited.Keys|
  {
    if vertex in visited {
      WalkFromVisited(g, x, f, b, vertex, visited, path);
    } else {
      WalkFromEnters(g, x, f, b, vertex, visited, path);
      var marked := visited[vertex := |path|];
      var (e, other) := Adjacency(g, f, b, vertex)[0];
      var next := path + [Direct(x, e, vertex, other)];
      if other in marked {
        WalkFromVisited(g, x, f, b, other, marked, next);
      } else {
        OtherHasItems(g, f, b, vertex, other);
        AdjacencyInSupport(g, f, b, vertex);
        MarkShrinks(SupportVertices(g, f), visited, vertex, |path|);
        WalkFromFinds(g, x, f, b, other, marked, next);
      }
      TryItemsHead(g, x, f, b, vertex, marked, path);
    }
  }

  /** The far end of w's first item has the same edge in its own list. */
  lemma OtherHasItems(g: Graph, f: set<int>, b: set<int>, w: int, other: int)
    requires |Adjacency(g, f, b, w)| > 0 && other == Adjacency(g, f, b, w)[0].1
    ensures |Adjacency(g, f, b, other)| > 0
  {
    AdjacencyItems(g, f, b, w);
    var e := Adjacency(g, f, b, w)[0].0;
    assert Touches(g, e, other);
    AdjacencyItems(g, f, b, other);
    assert (e, Other(g, e, other)) in Adjacency(g, f, b, other);
  }

  /** The smallest edge index in f: the first key the adjacency map gets. */
  function FirstEdge(g: Graph, f: set<int>, k: nat): (e: int)
    requires f != {} && forall i :: i in f ==> k <= i < |g.edges|
    ensures e in f && forall i :: i in f ==> e <= i
    decreases |g.edges| - k
  {
    if k in f then k else FirstEdge(g, f, k + 1)
  }

  /** The walk's start vertex: the first endpoint of the smallest fractional edge. */
  function StartVertex(g: Graph, f: set<int>): int
    requires f != {} && forall e :: e in f ==> 0 <= e < |g.edges|
  {
    g.edges[FirstEdge(g, f, 0)].0
  }

  /**
   * find_cycle: None exactly when there are no fractional edges; otherwise a
   * non-empty list of well-formed entries.
   */
  method FindCycle(g: Graph, x: map<(int, int), real>, f: set<int>, b: set<int>) returns (r: Option<seq<Entry>>)
    requires forall e :: e in f ==> 0 <= e < |g.edges|
    ensures r.None? <==> f == {}
    ensures r.Some? ==> |r.value| > 0 && PathOk(g, x, f, r.value)
    ensures r.Some? ==> r == WalkFrom(g, x, f, b, StartVertex(g, f), map[], [])
  {
    if f == {} {
      return None;
    }
    var first := 0;
    while first !in f
      invariant 0 <= first <= FirstEdge(g, f, 0)
      decreases FirstEdge(g, f, 0) - first
    {
      first := first + 1;
    }
    var start := g.edges[first].0;
    AdjacencyItems(g, f, b, start);
    assert (first, Other(g, first, start)) in Adjacency(g, f, b, start);
    WalkFromFinds(g, x, f, b, start, map[], []);
    WalkFromPathOk(g, x, f, b, start, map[], []);
    r := Walk(g, x, f, b, start, map[], []);
  }
}
