/**
 * Rotate (Algorithm 1): given a cycle of directed edges (e, (u, v)), take
 * delta = min over the cycle of x[e,u] * p_e and move delta / p_e of every
 * cycle edge with p_e > 1e-9 from u to v, clamping the two values into
 * [0, 1] and renormalising the pair to sum to 1 (0.5 / 0.5 when the pair
 * has vanished).
 */
module Rotation {
  import opened Core

  /** A cycle entry: an edge index and its direction (from, to). */
  type Entry = (int, (int, int))

  function Min(a: real, b: real): real { if b < a then b else a }

  function Max(a: real, b: real): real { if b > a then b else a }

  /** delta_e = x[e, from] * p_e for one entry. */
  function Delta(x: map<(int, int), real>, g: Graph, c: Entry): real {
    Get(x, c.0, c.1.0) * EdgeWeight(g, c.0)
  }

  /** The smallest delta among the first n entries, scanning left to right. */
  function MinDeltaUpTo(x: map<(int, int), real>, g: Graph, cycle: seq<Entry>, n: nat): (d: real)
    requires 0 < n <= |cycle|
    ensures forall i :: 0 <= i < n ==> d <= Delta(x, g, cycle[i])
    ensures exists i :: 0 <= i < n && d == Delta(x, g, cycle[i])
  {
    if n == 1 then Delta(x, g, cycle[0])
    else Min(MinDeltaUpTo(x, g, cycle, n - 1), Delta(x, g, cycle[n - 1]))
  }

  /** delta = the minimum of the deltas over the whole cycle. */
  function MinDelta(x: map<(int, int), real>, g: Graph, cycle: seq<Entry>): real
    requires |cycle| > 0
  {
    MinDeltaUpTo(x, g, cycle, |cycle|)
  }

  /**
   * One edge's update: x[e,u] := max(0, x[e,u] - amount), then
   * x[e,v] := min(1, x[e,v] + amount), then both divided by their sum, or
   * both set to 0.5 when that sum is at most 1e-9. Entries are read after
   * the writes before them, as a dictionary updated in place would be.
   */
  function Shift(x: map<(int, int), real>, e: int, u: int, v: int, amount: real): map<(int, int), real> {
    var x1 := x[(e, u) := Max(0.0, Get(x, e, u) - amount)];
    var x2 := x1[(e, v) := Min(1.0, Get(x1, e, v) + amount)];
    var total := Get(x2, e, u) + Get(x2, e, v);
    if total > Epsilon then
      var x3 := x2[(e, u) := Get(x2, e, u) / total];
      x3[(e, v) := Get(x3, e, v) / total]
    else
      x2[(e, u) := 0.5][(e, v) := 0.5]
  }

  /** The update for one cycle entry: edges of weight at most 1e-9 are skipped. */
  function StepAt(x: map<(int, int), real>, g: Graph, c: Entry, d: real): map<(int, int), real> {
    var p := EdgeWeight(g, c.0);
    if p > Epsilon then Shift(x, c.0, c.1.0, c.1.1, d / p) else x
  }

  /** The solution after the first n entries have been updated with delta d. */
  function ApplyUpTo(x: map<(int, int), real>, g: Graph, cycle: seq<Entry>, d: real, n: nat): map<(int, int), real>
    requires n <= |cycle|
  {
    if n == 0 then x else StepAt(ApplyUpTo(x, g, cycle, d, n - 1), g, cycle[n - 1], d)
  }

  /** The solution Rotate produces. */
  function Rotated(x: map<(int, int), real>, g: Graph, cycle: seq<Entry>): map<(int, int), real> {
    if |cycle| == 0 then x else ApplyUpTo(x, g, cycle, MinDelta(x, g, cycle), |cycle|)
  }

  /** Rotate, updating the solution in place. */
  method Rotate(s: Solution, g: Graph, cycle: seq<Entry>)
    modifies s
    ensures s.x == Rotated(old(s.x), g, cycle)
  {
    var deltas: seq<real> := [];
    for i := 0 to |cycle|
      invariant |deltas| == i
      invariant forall j :: 0 <= j < i ==> deltas[j] == Delta(s.x, g, cycle[j])
    {
      var c := cycle[i];
      var xeu := Get(s.x, c.0, c.1.0);
      var pe := EdgeWeight(g, c.0);
      deltas := deltas + [xeu * pe];
    }
    if |deltas| == 0 {
      return;
    }
    var minDelta := deltas[0];
    for i := 1 to |deltas|
      invariant minDelta == MinDeltaUpTo(s.x, g, cycle, i)
    {
      if deltas[i] < minDelta {
        minDelta := deltas[i];
      }
    }
    ghost var x0 := s.x;
    for i := 0 to |cycle|
      invariant s.x == ApplyUpTo(x0, g, cycle, minDelta, i)
    {
      var e, u, v := cycle[i].0, cycle[i].1.0, cycle[i].1.1;
      var pe := EdgeWeight(g, e);
      if pe > Epsilon {
        var delta := minDelta / pe;
        ShiftInPlace(s, e, u, v, delta);
      }
    }
  }

  /** The in-place writes of one edge's update. */
  method ShiftInPlace(s: Solution, e: int, u: int, v: int, delta: real)
    modifies s
    ensures s.x == Shift(old(s.x), e, u, v, delta)
  {
    s.x := s.x[(e, u) := Max(0.0, Get(s.x, e, u) - delta)];
    s.x := s.x[(e, v) := Min(1.0, Get(s.x, e, v) + delta)];
    var total := Get(s.x, e, u) + Get(s.x, e, v);
    if total > Epsilon {
      s.x := s.x[(e, u) := Get(s.x, e, u) / total];
      s.x := s.x[(e, v) := Get(s.x, e, v) / total];
    } else {
      s.x := s.x[(e, u) := 0.5];
      s.x := s.x[(e, v) := 0.5];
    }
  }

  // ---------------------------------------------------------------------
  // What Rotate leaves alone

  /** Edge e takes part in the rotation: it is on the cycle and heavier than 1e-9. */
  predicate Rotates(g: Graph, cycle: seq<Entry>, e: int) {
    EdgeWeight(g, e) > Epsilon && exists i :: 0 <= i < |cycle| && cycle[i].0 == e
  }

  lemma {:induction false} ApplyUpToLeavesEdge(x: map<(int, int), real>, g: Graph, cycle: seq<Entry>, d: real, n: nat, e: int, w: int)
    requires n <= |cycle| && !Rotates(g, cycle, e)
    ensures var r := ApplyUpTo(x, g, cycle, d, n);
      ((e, w) in r <==> (e, w) in x) && ((e, w) in x ==> r[(e, w)] == x[(e, w)])
  {
    if n > 0 {
      ApplyUpToLeavesEdge(x, g, cycle, d, n - 1, e, w);
      assert cycle[n - 1].0 != e || EdgeWeight(g, e) <= Epsilon;
    }
  }

  /**
   * Rotate changes no entry of an edge that is off the cycle or whose weight
   * is at most 1e-9, and changes nothing at all on an empty cycle.
   */
  lemma RotateLeavesOtherEdges(x: map<(int, int), real>, g: Graph, cycle: seq<Entry>, e: int, w: int)
    requires |cycle| == 0 || !Rotates(g, cycle, e)
    ensures var r := Rotated(x, g, cycle);
      ((e, w) in r <==> (e, w) in x) && ((e, w) in x ==> r[(e, w)] == x[(e, w)])
  {
    if |cycle| > 0 {
      ApplyUpToLeavesEdge(x, g, cycle, MinDelta(x, g, cycle), |cycle|, e, w);
    }
  }

  // ---------------------------------------------------------------------
  // Rewritten pairs are normalised

  /** Every value present in x is non-negative. */
  predicate NonNegative(x: map<(int, int), real>) {
    forall k :: k in x ==> x[k] >= 0.0
  }

  /** The pair (x[e,u], x[e,v]) lies in [0,1] x [0,1] and sums to 1. */
  predicate PairNormalised(x: map<(int, int), real>, e: int, u: int, v: int) {
    0.0 <= Get(x, e, u) <= 1.0 && 0.0 <= Get(x, e, v) <= 1.0 && Get(x, e, u) + Get(x, e, v) == 1.0
  }

  /** Every entry names two distinct vertices, and all entries of one edge name the same two. */
  predicate WellFormedCycle(cycle: seq<Entry>) {
    && (forall i :: 0 <= i < |cycle| ==> cycle[i].1.0 != cycle[i].1.1)
    && (forall i, j :: 0 <= i < |cycle| && 0 <= j < |cycle| && cycle[i].0 == cycle[j].0 ==>
          {cycle[i].1.0, cycle[i].1.1} == {cycle[j].1.0, cycle[j].1.1})
  }

  /**
   * One shift by a non-negative amount, when x[e,v] is non-negative, leaves
   * the pair normalised (the 0.5 / 0.5 fallback included), keeps every value
   * non-negative and changes no other entry.
   */
  lemma ShiftNormalises(x: map<(int, int), real>, e: int, u: int, v: int, amount: real)
    requires u != v && amount >= 0.0 && NonNegative(x)
    ensures PairNormalised(Shift(x, e, u, v, amount), e, u, v)
    ensures NonNegative(Shift(x, e, u, v, amount))
    ensures forall k :: k != (e, u) && k != (e, v) ==>
      (k in Shift(x, e, u, v, amount) <==> k in x) && (k in x ==> Shift(x, e, u, v, amount)[k] == x[k])
  {
    var x1 := x[(e, u) := Max(0.0, Get(x, e, u) - amount)];
    var x2 := x1[(e, v) := Min(1.0, Get(x1, e, v) + amount)];
    var a, b := Get(x2, e, u), Get(x2, e, v);
    assert a >= 0.0 && b >= 0.0 && b <= 1.0;
    if a + b > Epsilon {
      Renormalise(a, b);
    }
  }

  /** Dividing two non-negative values by their positive sum gives a pair in [0,1] summing to 1. */
  lemma Renormalise(a: real, b: real)
    requires a >= 0.0 && b >= 0.0 && a + b > 0.0
    ensures 0.0 <= a / (a + b) <= 1.0 && 0.0 <= b / (a + b) <= 1.0
    ensures a / (a + b) + b / (a + b) == 1.0
  {
    var t := a + b;
    assert a / t + b / t == (a + b) / t;
    assert a / t <= t / t && b / t <= t / t;
  }

  lemma {:induction false} ApplyUpToNormalises(x: map<(int, int), real>, g: Graph, cycle: seq<Entry>, d: real, n: nat)
    requires n <= |cycle| && d >= 0.0 && NonNegative(x) && WellFormedCycle(cycle)
    ensures NonNegative(ApplyUpTo(x, g, cycle, d, n))
    ensures forall i :: 0 <= i < n && EdgeWeight(g, cycle[i].0) > Epsilon ==>
      PairNormalised(ApplyUpTo(x, g, cycle, d, n), cycle[i].0, cycle[i].1.0, cycle[i].1.1)
  {
    if n > 0 {
      ApplyUpToNormalises(x, g, cycle, d, n - 1);
      var y := ApplyUpTo(x, g, cycle, d, n - 1);
      var c := cycle[n - 1];
      var p := EdgeWeight(g, c.0);
      if p > Epsilon {
        assert d / p >= 0.0;
        ShiftNormalises(y, c.0, c.1.0, c.1.1, d / p);
        var r := Shift(y, c.0, c.1.0, c.1.1, d / p);
        forall i | 0 <= i < n && EdgeWeight(g, cycle[i].0) > Epsilon
          ensures PairNormalised(r, cycle[i].0, cycle[i].1.0, cycle[i].1.1)
        {
          if cycle[i].0 == c.0 {
            assert {cycle[i].1.0, cycle[i].1.1} == {c.1.0, c.1.1};
            if cycle[i].1.0 != c.1.0 {
              assert cycle[i].1.0 == c.1.1 && cycle[i].1.1 == c.1.0;
            }
          } else if i < n - 1 {
            assert Get(r, cycle[i].0, cycle[i].1.0) == Get(y, cycle[i].0, cycle[i].1.0);
            assert Get(r, cycle[i].0, cycle[i].1.1) == Get(y, cycle[i].0, cycle[i].1.1);
          }
        }
      }
    }
  }

  /**
   * With non-negative values and weights, every pair Rotate rewrites ends in
   * [0, 1] and sums to 1.
   */
  lemma RotateNormalisesPairs(x: map<(int, int), real>, g: Graph, cycle: seq<Entry>, i: int)
    requires NonNegative(x) && WellFormedCycle(cycle)
    requires forall j :: 0 <= j < |cycle| ==> EdgeWeight(g, cycle[j].0) >= 0.0
    requires 0 <= i < |cycle| && EdgeWeight(g, cycle[i].0) > Epsilon
    ensures PairNormalised(Rotated(x, g, cycle), cycle[i].0, cycle[i].1.0, cycle[i].1.1)
    ensures NonNegative(Rotated(x, g, cycle))
  {
    var d := MinDelta(x, g, cycle);
    var j :| 0 <= j < |cycle| && d == Delta(x, g, cycle[j]);
    assert Get(x, cycle[j].0, cycle[j].1.0) >= 0.0;
    assert d >= 0.0;
    ApplyUpToNormalises(x, g, cycle, d, |cycle|);
  }

  // ---------------------------------------------------------------------
  // Progress

  /** No edge appears twice on the cycle. */
  predicate DistinctEdges(cycle: seq<Entry>) {
    forall i, j :: 0 <= i < j < |cycle| ==> cycle[i].0 != cycle[j].0
  }

  lemma {:induction false} ApplyUpToBefore(x: map<(int, int), real>, g: Graph, cycle: seq<Entry>, d: real, n: nat, e: int, w: int)
    requires n <= |cycle| && forall j :: 0 <= j < n ==> cycle[j].0 != e
    ensures Get(ApplyUpTo(x, g, cycle, d, n), e, w) == Get(x, e, w)
  {
    if n > 0 {
      ApplyUpToBefore(x, g, cycle, d, n - 1, e, w);
    }
  }

  lemma {:induction false} ApplyUpToAfter(x: map<(int, int), real>, g: Graph, cycle: seq<Entry>, d: real, m: nat, n: nat, e: int, w: int)
    requires m <= n <= |cycle| && forall j :: m <= j < n ==> cycle[j].0 != e
    ensures Get(ApplyUpTo(x, g, cycle, d, n), e, w) == Get(ApplyUpTo(x, g, cycle, d, m), e, w)
  {
    if n > m {
      ApplyUpToAfter(x, g, cycle, d, m, n - 1, e, w);
    }
  }

  /**
   * The progress step of Algorithm 1: on a cycle of distinct edges, an entry
   * (e, (u, v)) whose pair sums to 1, whose weight exceeds 1e-9 and whose
   * delta is the minimum ends with x[e,u] = 0 and x[e,v] = 1, so e becomes
   * integral.
   */
  lemma RotateIntegralisesMinimiser(x: map<(int, int), real>, g: Graph, cycle: seq<Entry>, i: int)
    requires DistinctEdges(cycle) && 0 <= i < |cycle|
    requires cycle[i].1.0 != cycle[i].1.1
    requires EdgeWeight(g, cycle[i].0) > Epsilon
    requires Get(x, cycle[i].0, cycle[i].1.0) + Get(x, cycle[i].0, cycle[i].1.1) == 1.0
    requires Delta(x, g, cycle[i]) == MinDelta(x, g, cycle)
    ensures Get(Rotated(x, g, cycle), cycle[i].0, cycle[i].1.0) == 0.0
    ensures Get(Rotated(x, g, cycle), cycle[i].0, cycle[i].1.1) == 1.0
  {
    MinimiserFinal(x, g, cycle, MinDelta(x, g, cycle), i);
  }

  lemma MinimiserFinal(x: map<(int, int), real>, g: Graph, cycle: seq<Entry>, d: real, i: int)
    requires DistinctEdges(cycle) && 0 <= i < |cycle|
    requires cycle[i].1.0 != cycle[i].1.1
    requires EdgeWeight(g, cycle[i].0) > Epsilon
    requires Get(x, cycle[i].0, cycle[i].1.0) + Get(x, cycle[i].0, cycle[i].1.1) == 1.0
    requires d == Delta(x, g, cycle[i])
    ensures Get(ApplyUpTo(x, g, cycle, d, |cycle|), cycle[i].0, cycle[i].1.0) == 0.0
    ensures Get(ApplyUpTo(x, g, cycle, d, |cycle|), cycle[i].0, cycle[i].1.1) == 1.0
  {
    var e, u, v := cycle[i].0, cycle[i].1.0, cycle[i].1.1;
    MinimiserStep(x, g, cycle, d, i);
    ApplyUpToAfter(x, g, cycle, d, i + 1, |cycle|, e, u);
    ApplyUpToAfter(x, g, cycle, d, i + 1, |cycle|, e, v);
  }

  /** The update of the minimising entry itself empties its source. */
  lemma MinimiserStep(x: map<(int, int), real>, g: Graph, cycle: seq<Entry>, d: real, i: int)
    requires DistinctEdges(cycle) && 0 <= i < |cycle|
    requires cycle[i].1.0 != cycle[i].1.1
    requires EdgeWeight(g, cycle[i].0) > Epsilon
    requires Get(x, cycle[i].0, cycle[i].1.0) + Get(x, cycle[i].0, cycle[i].1.1) == 1.0
    requires d == Delta(x, g, cycle[i])
    ensures Get(ApplyUpTo(x, g, cycle, d, i + 1), cycle[i].0, cycle[i].1.0) == 0.0
    ensures Get(ApplyUpTo(x, g, cycle, d, i + 1), cycle[i].0, cycle[i].1.1) == 1.0
  {
    var e, u, v := cycle[i].0, cycle[i].1.0, cycle[i].1.1;
    var p := EdgeWeight(g, e);
    ApplyUpToBefore(x, g, cycle, d, i, e, u);
    ApplyUpToBefore(x, g, cycle, d, i, e, v);
    var y := ApplyUpTo(x, g, cycle, d, i);
    CancelWeight(Get(x, e, u), p);
    ShiftEmptiesSource(y, e, u, v, d / p);
    assert ApplyUpTo(x, g, cycle, d, i + 1) == StepAt(y, g, cycle[i], d);
  }

  lemma CancelWeight(a: real, p: real)
    requires p > 0.0
    ensures (a * p) / p == a
  {
  }

  /** Shifting exactly x[e,u] out of a pair that sums to 1 gives (0, 1). */
  lemma ShiftEmptiesSource(y: map<(int, int), real>, e: int, u: int, v: int, amount: real)
    requires u != v && amount == Get(y, e, u) && Get(y, e, u) + Get(y, e, v) == 1.0
    ensures Get(Shift(y, e, u, v, amount), e, u) == 0.0
    ensures Get(Shift(y, e, u, v, amount), e, v) == 1.0
  {
    var x1 := y[(e, u) := Max(0.0, Get(y, e, u) - amount)];
    assert Get(x1, e, u) == 0.0 && Get(x1, e, v) == Get(y, e, v);
    var x2 := x1[(e, v) := Min(1.0, Get(x1, e, v) + amount)];
    assert Get(x2, e, u) == 0.0 && Get(x2, e, v) == 1.0;
  }

  /** Shifting an amount that needs no clamping within a pair that sums to 1 moves exactly that amount. */
  lemma ShiftWithoutClamping(y: map<(int, int), real>, e: int, u: int, v: int, amount: real)
    requires u != v && 0.0 <= amount <= Get(y, e, u) && Get(y, e, u) + Get(y, e, v) == 1.0
    ensures Shift(y, e, u, v, amount) == y[(e, u) := Get(y, e, u) - amount][(e, v) := Get(y, e, v) + amount]
  {
    var a, b := Get(y, e, u) - amount, Get(y, e, v) + amount;
    var x1 := y[(e, u) := Max(0.0, Get(y, e, u) - amount)];
    var x2 := x1[(e, v) := Min(1.0, Get(x1, e, v) + amount)];
    var total := Get(x2, e, u) + Get(x2, e, v);
    var x3 := x2[(e, u) := Get(x2, e, u) / total];
    assert Shift(y, e, u, v, amount) == x3[(e, v) := Get(x3, e, v) / total] by {
      assert total == a + b == 1.0 > Epsilon;
    }
    assert x2 == y[(e, u) := a][(e, v) := b];
    assert Get(x2, e, u) / total == a;
    assert x3 == x2;
    assert Get(x3, e, v) / total == b;
  }
}
