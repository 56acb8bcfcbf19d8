# Graph balancing: the LP-rounding engine

Graph balancing orients every edge (job) of a weighted multigraph towards
one of its two endpoints (machines). The aim is to keep the makespan small:
the largest vertex load, where the load of a vertex is its dedicated load
`q_v` plus the weights `p_e` of the edges oriented to it. The repository
solves a linear relaxation and rounds its fractional solution `x[e, v]` to
an orientation. This project models the rounding engine and the small
graph layer it runs on, and proves properties of both.

The modules follow the two source files:

- `core.dfy` (module `Core`) models the graph layer in `core.py`:
  - graph construction with its validation;
  - weight and dedicated-load lookups, incident edges;
  - the orientation, its load and its makespan;
  - the big-edge and fractional-edge sets.

  It also holds the mutable solution `Solution`, the dictionary `x` that the
  rounding loop updates in place.
- `components.dfy` (module `Components`) models `get_components`.
- `rotate.dfy` (module `Rotation`) models `rotate`, Algorithm 1. It takes
  the smallest `x[e,u]·p_e` over the cycle and moves `δ/p_e` along every
  cycle edge heavier than 1e-9. Each rewritten pair is then clamped and
  renormalised.
- `cycle.dfy` (module `CycleFinder`) models `find_cycle`.
  - The recursive walk is the function `WalkFrom`.
  - The method `Walk` does the same thing with a marked-vertex map and a path.
  - Adjacency lists are tried big edges first, then higher edge index first.
- `leaf.dfy` (module `LeafStep`) models the leaf scan of `round_procedure`.
- `tree.dfy` (module `TreeAssignment`) models:
  - the tree step of `round_procedure`;
  - `_get_component_edges`, a breadth-first search over edges;
  - `_orient_tree_away_from_leaf`, a breadth-first search from a leaf that
    writes 0/1 values. The function `Bfs` defines the search, and
    `OrientAway` gives the solution it leaves. The methods that loop the
    way the source does are proved equal to it, edge by edge and vertex
    by vertex.
- `round.dfy` (module `Rounding`) models the `round_procedure` loop and the
  final read-off of the orientation.

Fixed modelling choices:

- Values are `real`. The tolerance ε is `Core.Epsilon` = 1e-9. An edge is
  big when its weight exceeds `Core.BigWeight` = 0.5. The leaf and tree
  threshold is `LeafStep.LeafBound` = 0.75.
- Vertices are `int`. The solution is a `map<(int, int), real>` keyed by
  (edge index, vertex). A missing key reads as 0.0.
- Wherever the source iterates over a Python `set` of edge indices, the
  model iterates in ascending edge index.
- The vertices of a tree are kept in the order its edges, taken in
  ascending index, first bring them.
- The neighbours of a vertex in the tree search are visited in the order of
  the edges that join them.

Several behaviours of the code are reproduced as written:

- The leaf step gives the edge to the end that is *not* of degree one.
- The cycle walk may return an edge twice, or entries that do not follow
  the walk's direction. Each entry is directed from the endpoint with the
  larger value.
- Only the first tree edge between two vertices is oriented.
- Self-loops are not rejected by graph construction.

## Model

| member | source | states |
|---|---|---|
| Core.NewGraph | core.py:24-56 | Construction succeeds exactly when every edge endpoint is a listed vertex and every weight index is in `[0, |E|)`; it keeps vertices, edges and weights, keeps given loads and gives every other vertex the load 0.0 |
| Core.EdgeWeight | core.py:58-60 | `p_e` is the stored weight, or 0.0 when edge e has none |
| Core.DedicatedLoad | core.py:62-64 | `q_v` is the stored load, or 0.0 when v has none |
| Core.IncidentEdges | core.py:66-72 | The result is strictly increasing and holds exactly the edge indices that have the vertex as an endpoint |
| Core.NewOrientation | core.py:86-106 | Construction succeeds exactly when every mapped index is an edge and its target is one of that edge's endpoints; otherwise it fails with InvalidOrientation |
| Core.Load | core.py:112-122 | The load of v is at least `q_v` when the edges oriented to v have non-negative weights, and exactly `q_v` when no edge is oriented to v |
| Core.AssignedWeightBounds | core.py:119-121 | The summed weight of the edges sent to v is non-negative when their weights are, and zero when none is sent to v |
| Core.AssignedWeightAfterReassign | core.py:112-122 | Re-mapping one edge changes the summed weight of a vertex by `+p_e` if it is the new target and `-p_e` if it was the old one |
| Core.ReassignMovesLoad | core.py:112-122 | Re-orienting edge e to one of its ends keeps the orientation valid, moves `p_e` from the old target's load to the new one's, and leaves every other load unchanged |
| Core.MaxLoad | core.py:132 | The maximum is at least every listed vertex's load and equals one of them |
| Core.Makespan | core.py:124-132 | The makespan is 0.0 without vertices; otherwise it bounds every vertex's load and is attained by some vertex |
| Core.ExampleLoads | core.py:112-132 | On the path 0-1-2 with both edges oriented forward, the loads are q plus the incoming weights (0.1, 0.8, 0.5) and the makespan is 0.8 |
| Core.BigEdges | core.py:140-150 | e is big exactly when it has a weight entry greater than 0.5 (0.5 itself is not big) |
| Core.BigEdgesAreHeavyEdges | core.py:140-150 | In a valid graph the big edges are exactly the edge indices whose weight exceeds 0.5 |
| Core.Get | core.py:167-168 | `x.get((e, v), 0.0)`: the stored value, or 0.0 when the entry is missing |
| Core.FractionalEdges | core.py:153-172 | e is in the result exactly when it is an edge and one of its two values lies strictly between ε and 1−ε |
| Core.IntegralEdgeNotFractional | core.py:166-171 | An edge whose two values are each 0 or 1 is not fractional |
| Core.FractionalSetAfterIntegralising | core.py:153-172 | Making the edges of d integral and touching nothing else removes exactly d from the fractional set |
| Core.FractionalOutsideUnchanged | core.py:153-172 | Changing only the entries of the edges in d changes the fractional status of no edge outside d |
| Core.AssignRemovesEdge | rounding.py:187-188 | Writing 1 at one end of e and 0 at the other removes e, and only e, from the fractional set; with distinct ends the values read back as 1 and 0 |
| Core.Solution.constructor | rounding.py:144 | The working solution starts as a copy of the caller's x |
| Core.Solution.Assign | rounding.py:187-188 | After the assignment the solution is the old one with `x[e,to] = 1` and `x[e,away] = 0` and nothing else changed |
| Components.IndexOf | core.py:192-193 | `list.index`: the first position holding the vertex |
| Components.MergeKeepsPartition | core.py:190-194 | Merging two blocks of a partition of the vertex positions gives a partition |
| Components.Merge | core.py:190-194 | Adding an edge of the subset merges its endpoints' blocks and keeps every block connected along the subset |
| Components.MergeAlongEdges | core.py:186-194 | After all subset edges, the blocks partition the vertex positions, each block is connected along the subset, and every subset edge has both endpoint positions in one block |
| Components.MergeKeepsClosed | core.py:190-194 | A merge keeps the both-ends-in-one-block property of the edges already added and adds it for the new edge |
| Components.BlocksToValues | core.py:197-201 | Every block is listed once and turned into the set of vertex values at its positions |
| Components.ImagesNonEmpty | core.py:197-201 | No returned component is empty |
| Components.ImagesCover | core.py:197-201 | Every vertex lies in some returned component, and nothing else does |
| Components.ImagesConnected | core.py:197-201 | Any two vertices of one component are joined by a walk along subset edges |
| Components.ImagesDisjoint | core.py:197-201 | With distinct vertex values the components are pairwise disjoint |
| Components.ImagesClosed | core.py:197-201 | With distinct vertex values both endpoints of every subset edge lie in the same component |
| Components.GetComponents | core.py:175-203 | The components are non-empty, cover exactly the vertices, are internally connected along the subset (all edges when none is given), and with distinct vertex values are disjoint and keep every subset edge inside one block |
| Rotation.MinDeltaUpTo | rounding.py:40 | δ is at most every entry's `x[e,u]·p_e` and equals one of them |
| Rotation.ShiftInPlace | rounding.py:48-59 | The in-place writes of one edge give the clamp-then-renormalise update of that pair |
| Rotation.Rotate | rounding.py:12-61 | The new solution is the old one rotated: unchanged on an empty cycle, otherwise every entry updated in order with the minimum δ |
| Rotation.ApplyUpToLeavesEdge | rounding.py:45-47 | Updating the entries never changes an edge that is not on the cycle or weighs at most 1e-9 |
| Rotation.RotateLeavesOtherEdges | rounding.py:37-47 | Rotate changes nothing on an empty cycle, and never changes an edge off the cycle or of weight at most 1e-9 |
| Rotation.ShiftNormalises | rounding.py:49-59 | For an entry with two distinct ends, one edge's update leaves its pair in [0, 1] and summing to 1, the 0.5/0.5 fallback included, keeps all values non-negative and changes no other entry |
| Rotation.ShiftWithoutClamping | rounding.py:49-59 | When the pair sums to 1 and the amount is at most the source value, one edge's update moves exactly that amount from the source end to the other end: no clamping and no renormalising takes effect |
| Rotation.ApplyUpToNormalises | rounding.py:45-59 | On a cycle whose entries have two distinct ends and name the same pair for the same edge, after the updates every rewritten pair is in [0, 1] and sums to 1, and all values stay non-negative |
| Rotation.RotateNormalisesPairs | rounding.py:45-59 | On such a cycle, after Rotate every pair of a cycle edge heavier than 1e-9 lies in [0, 1] and sums to 1 |
| Rotation.RotateIntegralisesMinimiser | rounding.py:28-50 | On a cycle of distinct edges, a cycle edge heavier than 1e-9 whose pair sums to 1 and whose `x[e,u]·p_e` is the minimum ends with `x[e,u] = 0` and `x[e,v] = 1` |
| CycleFinder.ItemsAtFacts | rounding.py:79-87 | An edge adds an item `(e, other end)` to a vertex's list exactly when it touches that vertex |
| CycleFinder.DescendingItemsOk | rounding.py:79-87 | Every item of one part of the list (big or not big) is a fractional edge of that kind touching the vertex |
| CycleFinder.DescendingHasAll | rounding.py:79-87 | Every fractional edge of that kind touching the vertex has an item in that part |
| CycleFinder.DescendingSorted | rounding.py:109-110 | Each part is in descending edge index |
| CycleFinder.AdjacencyItemsOk | rounding.py:79-87 | Every item of a vertex's list is a fractional edge touching it, paired with its other end |
| CycleFinder.AdjacencyHasAll | rounding.py:79-87 | Every fractional edge touching the vertex is in its list |
| CycleFinder.AdjacencySorted | rounding.py:109-110 | The list is sorted in reverse on (is big, edge index): big edges first, then higher index first |
| CycleFinder.AdjacencyItems | rounding.py:78-110 | The three facts above together |
| CycleFinder.SupportUpTo | rounding.py:79-87 | Both endpoints of every fractional edge are keys of the adjacency map |
| CycleFinder.AdjacencyInSupport | rounding.py:79-87 | A vertex with a non-empty list is an endpoint of a fractional edge |
| CycleFinder.Walk | rounding.py:97-129 | The recursive walk, with marks and path passed along and restored on failure, returns what `WalkFrom` defines |
| CycleFinder.WalkFromPathOk | rounding.py:112-122 | Whatever the walk returns is non-empty, and every entry is a fractional edge with its two endpoints, directed from the end with the larger value |
| CycleFinder.TryItemsPathOk | rounding.py:112-126 | The same for trying the items of a marked vertex |
| CycleFinder.WalkFromVisited | rounding.py:98-104 | Reaching a vertex already on the path returns the path from that vertex's mark on |
| CycleFinder.WalkFromEnters | rounding.py:106-112 | A new vertex with items is marked with the path length and its items are tried from the first |
| CycleFinder.TryItemsHead | rounding.py:112-125 | If walking the first item finds a cycle, trying the items returns it |
| CycleFinder.WalkFromFinds | rounding.py:97-129 | From a vertex with items, or one marked earlier on the path, the walk always finds a cycle |
| CycleFinder.OtherHasItems | rounding.py:86-87 | The far end of a vertex's first item has that edge in its own list |
| CycleFinder.FirstEdge | rounding.py:79-93 | The smallest fractional edge index, whose first endpoint is the first key of the adjacency map |
| CycleFinder.Direct | rounding.py:113-120 | The entry names the edge and its two ends, is directed from the end holding at least as much, and on a tie points towards the vertex being left |
| CycleFinder.FindCycle | rounding.py:64-131 | No cycle exactly when there are no fractional edges; otherwise a non-empty list of well-formed entries, namely the walk from the first endpoint of the smallest fractional edge |
| LeafStep.Degree | rounding.py:167-168 | The count is the number of the given edges that touch the vertex |
| LeafStep.LeafAt | rounding.py:161-182 | An offered pair names edge e, its receiver and its leaf end as the two ends of e, with the leaf end meeting the leaf conditions; none is offered exactly when neither end meets them; the first end is preferred |
| LeafStep.FindLeafPair | rounding.py:159-182 | The scan returns the leaf pair of the first fractional edge that offers one |
| LeafStep.LeafPairAt | rounding.py:162-182 | The checks at one edge, first end before second, return exactly the leaf pair that edge offers |
| LeafStep.FirstLeafPairSound | rounding.py:161-182 | A pair `(receiver, e, w)` names a fractional edge e with ends receiver and w; w has fractional degree 1, `x[e,w] > ε` and `x[e,w]·p_e ≤ 0.75`; no earlier fractional edge has such an end |
| LeafStep.FirstLeafPairComplete | rounding.py:161-182 | When no pair is found, no end of any fractional edge meets the leaf conditions |
| TreeAssignment.ComponentEdges | rounding.py:278-296 | The result holds the start edge, lies in `edge_set ∪ {start}`, holds every edge of edge_set sharing an end with one of its edges, and each of its edges is reached from the start by a chain of edges sharing ends: it is exactly the component of the start edge |
| TreeAssignment.AddNeighbours | rounding.py:284-294 | One dequeued edge adds every edge of edge_set outside the component that shares an end with it, to the component and to the queue |
| TreeAssignment.ChainInClosed | rounding.py:278-296 | Every edge reached from the start lies in any closed set holding the start, so the result is the least such set |
| TreeAssignment.ComponentIsComponentOf | rounding.py:278-296 | A closed set holding the start, inside `edge_set ∪ {start}`, all of whose edges are reached from the start, is the component of the start |
| TreeAssignment.TreeVertices | rounding.py:209-213 | The tree's vertices, each once: exactly the endpoints of its edges, in the order the edges bring them |
| TreeAssignment.VerticesUpToFacts | rounding.py:209-213 | The vertex list of the edges below n holds each endpoint of such an edge once, and nothing else |
| TreeAssignment.FirstTreeLeaf | rounding.py:215-221 | The first listed vertex of degree 1 in the tree, or none when no listed vertex has degree 1 |
| TreeAssignment.FirstOfDegreeOneFacts | rounding.py:215-221 | A vertex found from position i on has degree 1; none is found only when no vertex from i on has |
| TreeAssignment.TreeRootIsLeaf | rounding.py:215-226 | The root a tree is oriented from has degree 1 in it, and there is no root exactly when no vertex has degree 1 |
| TreeAssignment.FirstJoiningEdge | rounding.py:320-325 | The first tree edge, by index, joining the current vertex and the neighbour, or none; it is the edge `FirstJoiningFrom` names |
| TreeAssignment.FirstJoiningFrom | rounding.py:320-325 | The edge found from index k on is in the tree, joins the two vertices, and no tree edge between k and it does; none is found only when no tree edge from k on joins them |
| TreeAssignment.OrientTree | rounding.py:299-332 | The search leaves exactly the solution and visited set of `Bfs` from the leaf, so the new solution is `OrientAway` of the old one. Every edge it orients gets 1 at its far end and 0 at its near end, both visited; no other entry changes; every visited vertex but the leaf receives exactly one oriented edge; every vertex joined to a visited one by a tree edge is visited |
| TreeAssignment.VisitNeighbours | rounding.py:313-332 | Visiting one vertex scans the edges in index order, one `VisitEdgeStep` each: the new solution, visited set and queue are exactly those of `VisitFrom`. It keeps the search state and visits every vertex joined to the current one by a tree edge |
| TreeAssignment.VisitEdge | rounding.py:315-332 | One edge at the current vertex. If it is a tree edge leading to an unvisited neighbour n, then with e the first tree edge joining the two: e is oriented from the current vertex to n (the solution becomes `AssignedTo(x, e, n, current)`), n is added to the visited set and appended to the queue, and e is recorded as n's incoming edge. Otherwise nothing changes. The search state is kept |
| TreeAssignment.ScanEdge | rounding.py:315-332 | One iteration of the neighbour scan takes the search from `VisitFrom` at edge k to `VisitFrom` at edge k + 1, and keeps the search state |
| TreeAssignment.VisitFromGrows | rounding.py:312-332 | A vertex's scan only grows the visited set; when that set stays the same, so does the queue, and otherwise fewer vertices of the tree are left unvisited (so the search ends) |
| TreeAssignment.BfsEnds | rounding.py:309-332 | The search ends with an empty queue and a visited set holding the one it started from |
| TreeAssignment.TailedTriangleOrientation | rounding.py:299-332 | Take the triangle 1, 2, 3 with a tail from 0, all values one half. The search from 0 assigns edge 0 to 1, then edge 1 to 2 and edge 2 to 3, and never edge 3. The orientation of a component with a cycle is therefore fixed |
| TreeAssignment.OrientStep | rounding.py:327-332 | Orienting a not-yet-oriented edge from a visited vertex to an unvisited one keeps the search state |
| TreeAssignment.FreshEdge | rounding.py:315-317 | An edge reaching an unvisited vertex has not been oriented yet |
| TreeAssignment.TreeOrientedShrinks | rounding.py:223-226 | The oriented edges become integral and leave the fractional set, which loses nothing else |
| TreeAssignment.SearchOrientsAway | rounding.py:308-332 | When the search stops, the tree is oriented away from the leaf: the leaf is reached, every reached vertex but the leaf receives an oriented edge, every tree neighbour of a reached vertex is reached, and every oriented edge is the first tree edge joining its ends |
| TreeAssignment.OrientComponent | rounding.py:208-227 | It orients exactly when the component of the big fractional edge has a vertex of degree 1. It then orients that component away from the first such vertex, and the new solution is exactly `OrientAway` of the old one from that vertex. It writes 0/1 only on big fractional edges, gives each vertex at most one of them, and orients something when no edge is a self-loop. Otherwise nothing changes |
| TreeAssignment.TreeAtEnd | rounding.py:198-227 | The check at one end assigns exactly when that end has big-degree 1, more than 0.75 of `p_e` sits there, and the component has a leaf. The new solution is then `OrientAway` of the old one over that component from its root; otherwise nothing changes |
| TreeAssignment.TreeAt | rounding.py:192-251 | The checks at one big fractional edge, first end before second, assign exactly when the tree assignment fires at that edge. The new solution is then `OrientAway` over that edge's component from its root; otherwise nothing changes |
| TreeAssignment.FirstFiringFacts | rounding.py:192-251 | The first firing edge fires and no earlier edge does; there is none only when no edge fires |
| TreeAssignment.TreeStep | rounding.py:190-253 | The tree step assigns exactly when some big fractional edge fires. The new solution is then exactly `OrientAway` of the old one over the component of the first such edge, from that component's root. It orients only big fractional edges and gives each vertex at most one. It removes exactly those edges from the fractional set, changes nothing when no tree is assigned, and makes progress when one is and there are no self-loops |
| Rounding.ChosenEndHoldsMore | rounding.py:269-273 | The chosen end is an endpoint holding at least as much as the other end; on a tie it is the second endpoint |
| Rounding.ChosenEndOfSettledEdge | rounding.py:262-273 | On a non-fractional edge whose pair sums to 1, the chosen end holds at least 1−ε, and exactly 1 when the values are 0 and 1 |
| Rounding.ExtractOrientation | rounding.py:262-275 | Every edge index is mapped, to its chosen end, and the mapping is a valid orientation |
| Rounding.ChosenEndAgrees | rounding.py:262-273 | An edge whose two values agree in two solutions goes to the same end in both |
| Rounding.RoundStep | rounding.py:151-260 | One round on a non-empty fractional set. It is a leaf round exactly when the leaf scan finds a pair, and then assigns that edge. It is a tree round exactly when there is no pair and the tree step fires, and the new solution is then `OrientAway` over the component of the first firing edge from its root. Otherwise it is a rotation along the walk's cycle, which always exists. No edge outside the fractional set changes and no edge becomes fractional. A leaf round removes its edge, and a tree round removes at least one when no fractional edge is a self-loop |
| Rounding.RoundDoneDetermines | rounding.py:151-260 | Two rounds from the same solution are of the same kind and leave the same solution: each round is a function of the solution it starts from |
| Rounding.RunExtend | rounding.py:149-260 | Appending a round keeps every recorded round, each done as one round should be and not growing the fractional set |
| Rounding.RunFacts | rounding.py:149-260 | Each recorded round was a leaf, tree or rotation round as the source chooses them, did not grow the fractional set, and shrank it on a leaf round and on a tree round without self-loops |
| Rounding.RoundProcedure | rounding.py:134-275 | The caller's x is untouched; every edge index is mapped to one of its endpoints, chosen on the final solution; that solution has no fractional edge whenever the loop stopped on its own; an input without fractional edges runs no iteration and is read off as given; the solutions before each round start at x and end at the final one, and each round takes one to the next as the leaf, tree or rotation step the source chooses; the fractional set never grows, shrinks on every leaf round and on every tree round without self-loops, and no round gives up; an edge not fractional in x keeps its values and its end |
| Rounding.TiedTriangleHasNoLeaf | rounding.py:159-182 | On the triangle with every weight 0.4 and every value 0.5, all three edges are fractional and no end is a leaf |
| Rounding.TiedTriangleHasNoTree | rounding.py:147-197 | No edge of that triangle is big, so the tree step does not fire |
| Rounding.TiedTriangleAdjacency | rounding.py:78-110 | On that triangle vertex 0 tries edge 2 before edge 0, and vertex 2 tries edge 2 before edge 1 |
| Rounding.TiedTriangleWalk | rounding.py:97-131 | On that triangle the walk returns edge 2 twice, first towards 0, then towards 2 |
| Rounding.TiedTriangleRotationIsIdentity | rounding.py:12-61 | Rotating along that two-entry cycle gives back the same solution |
| Rounding.TiedTriangleStalls | rounding.py:149-260 | On that triangle the leaf scan and the tree step find nothing, and the rotation along the walk's cycle gives back the same solution, so the loop of round_procedure never ends |

## Left out

- `lp_solver.py`, `algorithm.py` and `generators.py` are not part of this model. They are the external LP call, the binary search over the makespan, and random instance builders. The fractional solution `x` is an input.
- Floating point is modelled as exact `real` arithmetic. The drift that the clamp, the renormalisation and the 1e-9 guards defend against is not modelled.
- The 1.75 makespan guarantee, the LP load and star constraints, and the claim that `rotate` keeps a solution feasible are not stated. The claim rests on a consistently directed cycle, and the walk's entries need not be one.
- Rounding.RoundProcedure: the `while True` loop is bounded by a `fuel` parameter. The result reports how many rounds ran. No termination is claimed, because the loop need not end. A rotation whose minimising edge weighs at most 1e-9 makes no progress, and neither does a tree step whose only leaf is on a self-loop. A walk that goes back along the edge it arrived by, with tied values, returns that edge twice in opposite directions, and rotating along it changes nothing: `Rounding.TiedTriangleStalls` shows such an input.
- Rounding.RoundProcedure: a rotation round is stated not to grow the fractional set, but not to shrink it. It is not summed into a bound on the number of rounds.
- Rotation.ShiftNormalises: stated only for an entry with two distinct ends. On a self-loop entry (e, (w, w)) both writes go to the one key x[e, w], which ends as 1/(4a) for the value a it holds before renormalising. That is not 0.5 unless a is 0.5.
- Rotation.ApplyUpToNormalises: stated only for a cycle without self-loop entries, in which every edge is named with the same pair of ends. The walk can return a self-loop entry, because a self-loop appears twice in its vertex's list.
- Rotation.RotateNormalisesPairs: stated only for such a cycle, for the same reason.
- Rotation.RotateIntegralisesMinimiser: it is stated only for a minimising edge with two distinct ends, a pair summing to 1, and a cycle of distinct edges. The docstring promises that the number of integral values grows for every cycle, but that is false for a cycle that repeats an edge: on the tied triangle the rotation changes nothing (`Rounding.TiedTriangleRotationIsIdentity`).
- Core.NewGraph: the code keeps the caller's dedicated-load dictionary and fills the defaults into it in place. The model returns a new map with the same contents, so the caller's dictionary aliasing the graph's is not captured.
- Components.GetComponents: the docstring speaks of vertex positions, but the code returns vertex values. The model follows the code.
- Components.GetComponents: disjointness, and every subset edge lying inside one component, are stated only when vertex values are distinct, which the code does not check. With vertices [1, 2, 1] and the edge (1, 2), position 2 stays alone and yields a second component {1}, which holds one end of the edge but not the other and meets the component {1, 2}.
- Components.GetComponents: every subset index must lie in `[0, |E|)`. The code raises IndexError for an index at or past the end and reads a negative index from the end of the edge list; neither is modelled.
- `networkx` is replaced by scans over ascending edge indices:
  - the component blocks are merged edge by edge;
  - tree neighbours come from the tree edges in index order.
- TreeAssignment.TreeRoot: the tree's vertices are a Python set in the source, which CPython iterates by hash slot, not in the order edges bring them. The root the model picks can therefore differ from CPython's, and the tree is then oriented from another leaf. With tree edges (3, 0) and (0, 1), in that index order, the model takes 3 as the root, while CPython iterates {0, 1, 3} as 0, 1, 3 and takes 1.
- Components.GetComponents: the order in which `networkx` yields the components is not modelled. The model lists them in an unspecified order.
- `find_cycle` sorts the adjacency lists in place. The model computes each sorted list as a function of the fractional and big edge sets, which gives the same order every time it is read.
- The `depth` argument of the walk and the parent carried in the tree search's queue are not modelled. Neither affects the result.
- CycleFinder.Walk: Python's recursion limit is not modelled. The walk recurses once per vertex it adds to the path, so a walk deeper than about a thousand vertices raises RecursionError in the source, where the model returns a cycle.
- `Orientation.get_target`, both `__repr__` methods and the module-level `compute_load` helper are not modelled separately. The first is a map lookup, the second only prints, and the last calls `Orientation.compute_load` (`Core.Load`).
