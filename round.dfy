/**
 * The rounding loop: starting from a fractional solution x, repeat
 * leaf assignment, tree assignment or rotation until no edge is
 * fractional, then send every edge to the end holding the larger value.
 */
module Rounding {
  import opened Core
  import opened Rotation
  import opened CycleFinder
  import opened LeafStep
  import opened TreeAssignment

  /** The end edge e goes to: the first end when it holds strictly more, otherwise the second. */
  function ChosenEnd(g: Graph, x: map<(int, int), real>, e: int): int
    requires 0 <= e < |g.edges|
  {
    var (u, v) := g.edges[e];
    if Get(x, e, u) > Get(x, e, v) then u else v
  }

  /** The chosen end is an end of e and holds at least as much of e as the other end. */
  lemma ChosenEndHoldsMore(g: Graph, x: map<(int, int), real>, e: int)
    requires 0 <= e < |g.edges|
    ensures Touches(g, e, ChosenEnd(g, x, e))
    ensures Get(x, e, ChosenEnd(g, x, e)) >= Get(x, e, g.edges[e].0)
    ensures Get(x, e, ChosenEnd(g, x, e)) >= Get(x, e, g.edges[e].1)
    ensures Get(x, e, g.edges[e].0) == Get(x, e, g.edges[e].1) ==> ChosenEnd(g, x, e) == g.edges[e].1
  {
  }

  /**
   * On an edge that is not fractional and whose two values sum to 1, the
   * chosen end holds at least 1 - eps of it (all of it when the values
   * are 0 and 1).
   */
  lemma ChosenEndOfSettledEdge(g: Graph, x: map<(int, int), real>, eps: real, e: int)
    requires 0 <= e < |g.edges| && g.edges[e].0 != g.edges[e].1
    requires 0.0 <= eps < 0.5
    requires Get(x, e, g.edges[e].0) + Get(x, e, g.edges[e].1) == 1.0
    requires e !in FractionalSet(g, x, eps)
    ensures Get(x, e, ChosenEnd(g, x, e)) >= 1.0 - eps
    ensures Integral(Get(x, e, g.edges[e].0)) ==> Get(x, e, ChosenEnd(g, x, e)) == 1.0
  {
    assert !IsFractional(g, x, eps, e);
  }

  /** The final extraction: every edge goes to its chosen end. */
  method ExtractOrientation(g: Graph, x: map<(int, int), real>) returns (orientation: map<int, int>)
    ensures forall e :: e in orientation <==> 0 <= e < |g.edges|
    ensures forall e :: 0 <= e < |g.edges| ==> orientation[e] == ChosenEnd(g, x, e)
    ensures MappingValid(g, orientation)
  {
    orientation := map[];
    for e := 0 to |g.edges|
      invariant forall e' :: e' in orientation <==> 0 <= e' < e
      invariant forall e' :: 0 <= e' < e ==> orientation[e'] == ChosenEnd(g, x, e')
    {
      var (u, v) := g.edges[e];
      var xu := Get(x, e, u);
      var xv := Get(x, e, v);
      if xu > xv {
        orientation := orientation[e := u];
      } else {
        orientation := orientation[e := v];
      }
    }
  }

  /** What one round of the loop did. */
  datatype Round = LeafRound | TreeRound | RotateRound | NoCycle

  /**
   * One round took solution x0 to x1: x0 has a fractional edge and the
   * round did not give up. It was a leaf round exactly when the leaf scan
   * finds a pair, and then assigned that pair's edge; a tree round exactly
   * when there is no pair and the tree step fires on the big fractional
   * edges, and then oriented the component of the first firing edge away
   * from its root by the breadth-first search (dir holds the oriented
   * edges as (tail, head), visited the vertices the search reached);
   * otherwise a rotation along the cycle the walk finds from its start
   * vertex.
   */
  ghost predicate RoundDone(g: Graph, big: set<int>, x0: map<(int, int), real>, x1: map<(int, int), real>,
                            kind: Round, dir: map<int, (int, int)>, visited: set<int>) {
    var f := FractionalSet(g, x0, Epsilon);
    var bf := f * big;
    && f != {} && kind != NoCycle
    && (kind == LeafRound <==> FirstLeafPair(g, x0, f, 0).Some?)
    && (kind == LeafRound ==>
          var (receiver, e, leaf) := FirstLeafPair(g, x0, f, 0).value;
          x1 == AssignedTo(x0, e, receiver, leaf))
    && (kind == TreeRound <==> FirstLeafPair(g, x0, f, 0).None? && FirstFiring(g, x0, bf, 0).Some?)
    && (kind == TreeRound ==>
          var t := ComponentOf(g, bf, FirstFiring(g, x0, bf, 0).value);
          && TreeRoot(g, t).Some? && OrientedAwayFrom(g, t, TreeRoot(g, t).value, visited, dir)
          && TreeOriented(g, bf, x0, x1, dir)
          && x1 == OrientAway(g, t, x0, TreeRoot(g, t).value))
    && (kind == RotateRound ==>
          var c := WalkFrom(g, x0, f, big, StartVertex(g, f), map[], []);
          c.Some? && x1 == Rotated(x0, g, c.value))
  }

  /** A round is determined by the solution it starts from: its kind and the solution it leaves. */
  lemma RoundDoneDetermines(g: Graph, big: set<int>, x0: map<(int, int), real>,
                            x1: map<(int, int), real>, kind: Round, dir: map<int, (int, int)>, visited: set<int>,
                            y1: map<(int, int), real>, kind': Round, dir': map<int, (int, int)>, visited': set<int>)
    requires RoundDone(g, big, x0, x1, kind, dir, visited)
    requires RoundDone(g, big, x0, y1, kind', dir', visited')
    ensures kind == kind' && x1 == y1
  {
  }

  /**
   * One round on a solution whose fractional edge set is `fractional`,
   * not empty: a leaf assignment when the leaf scan finds a pair, else a
   * tree assignment when the tree scan fires on the big fractional edges,
   * else a rotation along the cycle the walk finds; the walk always finds
   * one, so the round never gives up. No entry of an edge outside
   * `fractional` changes and no edge becomes fractional; a leaf round
   * removes its edge from the fractional set, a tree round removes the
   * edges it oriented, and so at least one when no fractional edge is a
   * self-loop.
   */
  method RoundStep(s: Solution, g: Graph, big: set<int>, fractional: set<int>)
    returns (kind: Round, ghost dir: map<int, (int, int)>, ghost visited: set<int>)
    requires fractional == FractionalSet(g, s.x, Epsilon) && fractional != {}
    modifies s
    ensures RoundDone(g, big, old(s.x), s.x, kind, dir, visited)
    ensures kind == LeafRound ==>
      FractionalSet(g, s.x, Epsilon) == fractional - {FirstLeafPair(g, old(s.x), fractional, 0).value.1}
    ensures kind == TreeRound ==> FractionalSet(g, s.x, Epsilon) == fractional - dir.Keys
    ensures forall e, w :: e !in fractional ==> Get(s.x, e, w) == Get(old(s.x), e, w)
    ensures FractionalSet(g, s.x, Epsilon) <= fractional
    ensures kind == LeafRound ==> FractionalSet(g, s.x, Epsilon) < fractional
    ensures kind == TreeRound && NoSelfLoops(g, fractional) ==> FractionalSet(g, s.x, Epsilon) < fractional
  {
    ghost var x0 := s.x;
    dir, visited := map[], {};
    var leafPair := FindLeafPair(g, s.x, fractional);
    if leafPair.Some? {
      var (receiver, e, leaf) := leafPair.value;
      FirstLeafPairSound(g, s.x, fractional, 0);
      AssignRemovesEdge(g, s.x, e, receiver, leaf, Epsilon);
      s.Assign(e, receiver, leaf);
      return LeafRound, dir, visited;
    }
    var bigFractional := fractional * big;
    var treeAssigned;
    treeAssigned, dir, visited := TreeStep(s, g, bigFractional);
    if treeAssigned {
      if NoSelfLoops(g, fractional) {
        ghost var e :| e in dir.Keys;
        assert e in fractional && e !in FractionalSet(g, s.x, Epsilon);
      }
      return TreeRound, dir, visited;
    }
    kind := NoCycle;
    var cycle := FindCycle(g, s.x, fractional, big);
    if cycle.Some? {
      Rotate(s, g, cycle.value);
      forall e, w | e !in fractional
        ensures Get(s.x, e, w) == Get(x0, e, w)
      {
        assert forall i :: 0 <= i < |cycle.value| ==> EntryOk(g, x0, fractional, cycle.value[i]);
        assert !Rotates(g, cycle.value, e);
        RotateLeavesOtherEdges(x0, g, cycle.value, e, w);
      }
      FractionalOutsideUnchanged(g, x0, s.x, Epsilon, fractional);
      kind := RotateRound;
    }
  }

  /**
   * One round as the run records it: done as RoundDone says, the
   * fractional set not grown, and shrunk by a leaf round and by a tree
   * round over a set without self-loops.
   */
  ghost predicate RoundOk(g: Graph, big: set<int>, x0: map<(int, int), real>, x1: map<(int, int), real>,
                          kind: Round, dir: map<int, (int, int)>, visited: set<int>) {
    && RoundDone(g, big, x0, x1, kind, dir, visited)
    && FractionalSet(g, x1, Epsilon) <= FractionalSet(g, x0, Epsilon)
    && (kind == LeafRound ==> FractionalSet(g, x1, Epsilon) < FractionalSet(g, x0, Epsilon))
    && (kind == TreeRound && NoSelfLoops(g, FractionalSet(g, x0, Epsilon)) ==>
          FractionalSet(g, x1, Epsilon) < FractionalSet(g, x0, Epsilon))
  }

  /** Appending a round keeps every recorded round where it was. */
  lemma RunExtend(g: Graph, big: set<int>, sols: seq<map<(int, int), real>>, kinds: seq<Round>,
                  dirs: seq<map<int, (int, int)>>, visits: seq<set<int>>,
                  next: map<(int, int), real>, kind: Round, dir: map<int, (int, int)>, visited: set<int>)
    requires |sols| == |kinds| + 1 && |dirs| == |kinds| && |visits| == |kinds|
    requires forall i :: 0 <= i < |kinds| ==> RoundOk(g, big, sols[i], sols[i + 1], kinds[i], dirs[i], visits[i])
    requires RoundOk(g, big, sols[|kinds|], next, kind, dir, visited)
    ensures forall i :: 0 <= i < |kinds| + 1 ==>
      RoundOk(g, big, (sols + [next])[i], (sols + [next])[i + 1], (kinds + [kind])[i], (dirs + [dir])[i], (visits + [visited])[i])
  {
    var sols', kinds', dirs', visits' := sols + [next], kinds + [kind], dirs + [dir], visits + [visited];
    forall i | 0 <= i < |kinds| + 1
      ensures RoundOk(g, big, sols'[i], sols'[i + 1], kinds'[i], dirs'[i], visits'[i])
    {
      if i < |kinds| {
        assert sols'[i] == sols[i] && sols'[i + 1] == sols[i + 1];
        assert kinds'[i] == kinds[i] && dirs'[i] == dirs[i] && visits'[i] == visits[i];
      }
    }
  }

  /** What the record of a run says about each of its rounds. */
  lemma RunFacts(g: Graph, big: set<int>, sols: seq<map<(int, int), real>>, kinds: seq<Round>,
                 dirs: seq<map<int, (int, int)>>, visits: seq<set<int>>)
    requires |sols| == |kinds| + 1 && |dirs| == |kinds| && |visits| == |kinds|
    requires forall i :: 0 <= i < |kinds| ==> RoundOk(g, big, sols[i], sols[i + 1], kinds[i], dirs[i], visits[i])
    ensures forall i :: 0 <= i < |kinds| ==> RoundDone(g, big, sols[i], sols[i + 1], kinds[i], dirs[i], visits[i])
    ensures forall i :: 0 <= i < |kinds| ==>
              FractionalSet(g, sols[i + 1], Epsilon) <= FractionalSet(g, sols[i], Epsilon)
    ensures forall i :: 0 <= i < |kinds| && kinds[i] == LeafRound ==>
              FractionalSet(g, sols[i + 1], Epsilon) < FractionalSet(g, sols[i], Epsilon)
    ensures forall i :: 0 <= i < |kinds| && kinds[i] == TreeRound && NoSelfLoops(g, FractionalSet(g, sols[i], Epsilon)) ==>
              FractionalSet(g, sols[i + 1], Epsilon) < FractionalSet(g, sols[i], Epsilon)
  {
  }

  /** Edges whose entries agree in x and y go to the same end in both. */
  lemma ChosenEndAgrees(g: Graph, x: map<(int, int), real>, y: map<(int, int), real>, e: int)
    requires 0 <= e < |g.edges|
    requires Get(y, e, g.edges[e].0) == Get(x, e, g.edges[e].0) && Get(y, e, g.edges[e].1) == Get(x, e, g.edges[e].1)
    ensures ChosenEnd(g, y, e) == ChosenEnd(g, x, e)
  {
  }

  /**
   * round_procedure on a copy of x. The loop of the source runs until no
   * edge is fractional; here it runs at most `fuel` rounds, and
   * `iterations` says how many rounds ran. The caller's x is not changed.
   * The result orients every edge to one of its ends, chosen on the final
   * solution `rounded`, which has no fractional edge whenever the loop
   * stopped before the fuel ran out. `sols` holds the solution before each
   * round and after the last, and round i took sols[i] to sols[i + 1] as
   * RoundDone says, with `kinds`, `dirs` and `visits` recording what it
   * did: the fractional set never grows, it shrinks on every leaf round
   * and on every tree round over a set without self-loops, and no round
   * gives up. An edge that was not fractional in x keeps its entries, and
   * so goes to the end it would have gone to in x.
   */
  method RoundProcedure(g: Graph, x: map<(int, int), real>, fuel: nat)
    returns (orientation: map<int, int>, iterations: nat, ghost rounded: map<(int, int), real>,
             ghost sols: seq<map<(int, int), real>>, ghost kinds: seq<Round>,
             ghost dirs: seq<map<int, (int, int)>>, ghost visits: seq<set<int>>)
    ensures forall e :: e in orientation <==> 0 <= e < |g.edges|
    ensures MappingValid(g, orientation)
    ensures forall e :: 0 <= e < |g.edges| ==> orientation[e] == ChosenEnd(g, rounded, e)
    ensures iterations <= fuel
    ensures iterations < fuel ==> FractionalSet(g, rounded, Epsilon) == {}
    ensures FractionalSet(g, x, Epsilon) == {} ==> iterations == 0 && rounded == x
    ensures |sols| == iterations + 1 && |kinds| == iterations && |dirs| == iterations && |visits| == iterations
    ensures sols[0] == x && sols[iterations] == rounded
    ensures forall i :: 0 <= i < iterations ==>
              RoundDone(g, BigSet(g), sols[i], sols[i + 1], kinds[i], dirs[i], visits[i])
    ensures forall i :: 0 <= i < iterations ==>
              FractionalSet(g, sols[i + 1], Epsilon) <= FractionalSet(g, sols[i], Epsilon)
    ensures forall i :: 0 <= i < iterations && kinds[i] == LeafRound ==>
              FractionalSet(g, sols[i + 1], Epsilon) < FractionalSet(g, sols[i], Epsilon)
    ensures forall i :: 0 <= i < iterations && kinds[i] == TreeRound && NoSelfLoops(g, FractionalSet(g, sols[i], Epsilon)) ==>
              FractionalSet(g, sols[i + 1], Epsilon) < FractionalSet(g, sols[i], Epsilon)
    ensures FractionalSet(g, rounded, Epsilon) <= FractionalSet(g, x, Epsilon)
    ensures forall e, w :: e !in FractionalSet(g, x, Epsilon) ==> Get(rounded, e, w) == Get(x, e, w)
    ensures forall e :: 0 <= e < |g.edges| && e !in FractionalSet(g, x, Epsilon) ==>
              orientation[e] == ChosenEnd(g, x, e)
  {
    var s := new Solution(x);
    var big := BigEdges(g);
    assert forall e :: e in big <==> e in BigSet(g);
    assert big == BigSet(g);
    iterations := 0;
    sols, kinds, dirs, visits := [x], [], [], [];
    while iterations < fuel
      invariant iterations <= fuel
      invariant FractionalSet(g, x, Epsilon) == {} ==> iterations == 0
      invariant |sols| == iterations + 1 && |kinds| == iterations && |dirs| == iterations && |visits| == iterations
      invariant forall i :: 0 <= i < iterations ==> RoundOk(g, big, sols[i], sols[i + 1], kinds[i], dirs[i], visits[i])
      invariant sols[0] == x && sols[iterations] == s.x
      invariant FractionalSet(g, s.x, Epsilon) <= FractionalSet(g, x, Epsilon)
      invariant forall e, w :: e !in FractionalSet(g, x, Epsilon) ==> Get(s.x, e, w) == Get(x, e, w)
    {
      var fractional := FractionalEdges(g, s.x, Epsilon);
      if fractional == {} {
        break;
      }
      iterations := iterations + 1;
      var kind;
      ghost var dir, visited;
      kind, dir, visited := RoundStep(s, g, big, fractional);
      RunExtend(g, big, sols, kinds, dirs, visits, s.x, kind, dir, visited);
      sols, kinds, dirs, visits := sols + [s.x], kinds + [kind], dirs + [dir], visits + [visited];
      if kind == NoCycle {
        break;
      }
    }
    rounded := s.x;
    RunFacts(g, big, sols, kinds, dirs, visits);
    orientation := ExtractOrientation(g, s.x);
    forall e | 0 <= e < |g.edges| && e !in FractionalSet(g, x, Epsilon)
      ensures orientation[e] == ChosenEnd(g, x, e)
    {
      ChosenEndAgrees(g, x, rounded, e);
    }
  }

  /** The triangle 0-1-2 with every edge weighing 0.4. */
  function TiedTriangle(): Graph {
    Graph([0, 1, 2], [(0, 1), (1, 2), (2, 0)], map[0 := 0.4, 1 := 0.4, 2 := 0.4], map[])
  }

  /** Every edge of the triangle split half and half between its ends. */
  function TiedValues(): map<(int, int), real> {
    map[(0, 0) := 0.5, (0, 1) := 0.5, (1, 1) := 0.5, (1, 2) := 0.5, (2, 2) := 0.5, (2, 0) := 0.5]
  }

  /** On the tied triangle every edge is fractional and every vertex has degree two, so no end is a leaf. */
  lemma TiedTriangleHasNoLeaf()
    ensures FractionalSet(TiedTriangle(), TiedValues(), Epsilon) == {0, 1, 2}
    ensures FirstLeafPair(TiedTriangle(), TiedValues(), {0, 1, 2}, 0).None?
  {
    var g, x, f := TiedTriangle(), TiedValues(), {0, 1, 2};
    assert FractionalSet(g, x, Epsilon) == f by {
      assert IsFractional(g, x, Epsilon, 0) && IsFractional(g, x, Epsilon, 1) && IsFractional(g, x, Epsilon, 2);
    }
    assert IncidentIn(g, f, 0) == {0, 2};
    assert IncidentIn(g, f, 1) == {0, 1};
    assert IncidentIn(g, f, 2) == {1, 2};
    assert LeafAt(g, x, f, 0).None? && LeafAt(g, x, f, 1).None? && LeafAt(g, x, f, 2).None?;
    assert FirstLeafPair(g, x, f, 2).None?;
  }

  /** On the tied triangle no edge is big, and each vertex tries its higher-numbered edge first. */
  lemma TiedTriangleAdjacency()
    ensures Adjacency(TiedTriangle(), {0, 1, 2}, {}, 0) == [(2, 2), (0, 1)]
    ensures Adjacency(TiedTriangle(), {0, 1, 2}, {}, 2) == [(2, 0), (1, 1)]
  {
    var g, f := TiedTriangle(), {0, 1, 2};
    assert Descending(g, f, {}, true, 0, 3) == [];
    assert Descending(g, f, {}, true, 2, 3) == [];
    assert Descending(g, f, {}, false, 0, 1) == [(0, 1)];
    assert Descending(g, f, {}, false, 0, 2) == [(0, 1)];
    assert Descending(g, f, {}, false, 0, 3) == [(2, 2), (0, 1)];
    assert Descending(g, f, {}, false, 2, 1) == [];
    assert Descending(g, f, {}, false, 2, 2) == [(1, 1)];
    assert Descending(g, f, {}, false, 2, 3) == [(2, 0), (1, 1)];
  }

  /** No edge of the tied triangle is big, so the tree assignment has nothing to fire on. */
  lemma TiedTriangleHasNoTree()
    ensures forall e :: e in TiedTriangle().weights ==> TiedTriangle().weights[e] <= BigWeight
    ensures FirstFiring(TiedTriangle(), TiedValues(), {0, 1, 2} * {}, 0).None?
  {
    var g, x := TiedTriangle(), TiedValues();
    assert {0, 1, 2} * {} == {};
    assert FirstFiring(g, x, {}, 3).None?;
  }

  /** Rotating along edge 2 and straight back moves half of edge 2 away and then back. */
  lemma TiedTriangleRotationIsIdentity()
    ensures Rotated(TiedValues(), TiedTriangle(), [(2, (2, 0)), (2, (0, 2))]) == TiedValues()
  {
    var g, x, c := TiedTriangle(), TiedValues(), [(2, (2, 0)), (2, (0, 2))];
    assert EdgeWeight(g, 2) == 0.4;
    assert Delta(x, g, c[0]) == 0.2 && Delta(x, g, c[1]) == 0.2;
    assert MinDelta(x, g, c) == 0.2;
    // each entry moves 0.2 / 0.4 = 0.5 of edge 2
    var once := x[(2, 2) := 0.0][(2, 0) := 1.0];
    ShiftWithoutClamping(x, 2, 2, 0, 0.5);
    assert ApplyUpTo(x, g, c, 0.2, 1) == StepAt(x, g, c[0], 0.2) == once;
    var twice := once[(2, 0) := 0.5][(2, 2) := 0.5];
    ShiftWithoutClamping(once, 2, 0, 2, 0.5);
    assert ApplyUpTo(x, g, c, 0.2, 2) == StepAt(once, g, c[1], 0.2) == twice;
    assert twice == x;
  }

  /**
   * The walk on the tied triangle leaves vertex 0 along edge 2 and, all
   * values being tied, comes straight back along edge 2.
   */
  lemma TiedTriangleWalk()
    ensures WalkFrom(TiedTriangle(), TiedValues(), {0, 1, 2}, {}, StartVertex(TiedTriangle(), {0, 1, 2}), map[], [])
            == Some([(2, (2, 0)), (2, (0, 2))])
  {
    var g, x, f := TiedTriangle(), TiedValues(), {0, 1, 2};
    var first := [(2, (2, 0))];
    var both := [(2, (2, 0)), (2, (0, 2))];
    TiedTriangleAdjacency();
    assert StartVertex(g, f) == 0;
    assert TryItems(g, x, f, {}, 2, map[0 := 0, 2 := 1], first, 0) == Some(both) by {
      assert first + [Direct(x, 2, 2, 0)] == both;
      assert WalkFrom(g, x, f, {}, 0, map[0 := 0, 2 := 1], both) == Some(both);
    }
    assert WalkFrom(g, x, f, {}, 2, map[0 := 0], first) == Some(both);
    assert TryItems(g, x, f, {}, 0, map[0 := 0], [], 0) == Some(both) by {
      assert [] + [Direct(x, 2, 0, 2)] == first;
    }
  }

  /**
   * A round that changes nothing. On the tied triangle every edge is
   * fractional, no edge is big, no end is a leaf, and the walk returns
   * edge 2 twice in opposite directions; rotating along that "cycle" gives
   * back the very same solution, so the loop of round_procedure never
   * ends on this input.
   */
  lemma TiedTriangleStalls()
    ensures FractionalSet(TiedTriangle(), TiedValues(), Epsilon) == {0, 1, 2}
    ensures forall e :: e in TiedTriangle().weights ==> TiedTriangle().weights[e] <= BigWeight
    ensures FirstLeafPair(TiedTriangle(), TiedValues(), {0, 1, 2}, 0).None?
    ensures FirstFiring(TiedTriangle(), TiedValues(), {0, 1, 2} * {}, 0).None?
    ensures WalkFrom(TiedTriangle(), TiedValues(), {0, 1, 2}, {}, StartVertex(TiedTriangle(), {0, 1, 2}), map[], [])
            == Some([(2, (2, 0)), (2, (0, 2))])
    ensures Rotated(TiedValues(), TiedTriangle(), [(2, (2, 0)), (2, (0, 2))]) == TiedValues()
  {
    TiedTriangleHasNoLeaf();
    TiedTriangleHasNoTree();
    TiedTriangleWalk();
    TiedTriangleRotationIsIdentity();
  }
}
