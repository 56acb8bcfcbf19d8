/**
 * The leaf assignment of the rounding loop: a fractional edge with an end
 * of degree one in the fractional subgraph, a value above epsilon at that
 * end, and at most three quarters of the edge's weight assigned there, is
 * made integral in one step.
 *
 * Each scan comes twice: as a method that loops the way the source does,
 * and as the function that specifies it, which the method's ensures names
 * and the lemmas reason about (Degree and DegreeIn, FindLeafPair and
 * FirstLeafPair).
 */
module LeafStep {
  import opened Core

  /** The bound on x[e, w] * p_e below which a leaf end may be rounded. */
  const LeafBound: real := 0.75

  /** The edges of s that touch w. */
  function IncidentIn(g: Graph, s: set<int>, w: int): set<int> {
    set e | e in s && Touches(g, e, w)
  }

  /** The degree of w in the subgraph made of the edges in s (a self-loop counts once). */
  function DegreeIn(g: Graph, s: set<int>, w: int): nat {
    |IncidentIn(g, s, w)|
  }

  /** Count the edges of s that touch w, scanning the edge indices in order. */
  method Degree(g: Graph, s: set<int>, w: int) returns (d: nat)
    ensures d == DegreeIn(g, s, w)
  {
    d := 0;
    for k := 0 to |g.edges|
      invariant d == |set e | e in s && e < k && Touches(g, e, w)|
    {
      ghost var before := set e | e in s && e < k && Touches(g, e, w);
      if k in s && Touches(g, k, w) {
        assert (set e | e in s && e < k + 1 && Touches(g, e, w)) == before + {k};
        d := d + 1;
      } else {
        assert (set e | e in s && e < k + 1 && Touches(g, e, w)) == before;
      }
    }
    assert (set e | e in s && e < |g.edges| && Touches(g, e, w)) == IncidentIn(g, s, w);
  }

  /** End w of fractional edge e qualifies as a leaf end. */
  predicate LeafEnd(g: Graph, x: map<(int, int), real>, f: set<int>, e: int, w: int) {
    DegreeIn(g, f, w) == 1 && Get(x, e, w) > Epsilon && Get(x, e, w) * EdgeWeight(g, e) <= LeafBound
  }

  /**
   * The leaf pair edge e offers, as (vertex that receives e, e, leaf end):
   * the first end is checked before the second.
   */
  function LeafAt(g: Graph, x: map<(int, int), real>, f: set<int>, e: int): (r: Option<(int, int, int)>)
    requires 0 <= e < |g.edges|
    ensures r.Some? ==> r.value.1 == e && EndsOf(g, e, r.value.0, r.value.2) && LeafEnd(g, x, f, e, r.value.2)
    ensures r.None? <==> !LeafEnd(g, x, f, e, g.edges[e].0) && !LeafEnd(g, x, f, e, g.edges[e].1)
    ensures LeafEnd(g, x, f, e, g.edges[e].0) ==> r.value.2 == g.edges[e].0
  {
    var (u, v) := g.edges[e];
    if LeafEnd(g, x, f, e, u) then Some((v, e, u))
    else if LeafEnd(g, x, f, e, v) then Some((u, e, v))
    else None
  }

  /** The leaf pair of the first fractional edge from index k on that offers one. */
  function FirstLeafPair(g: Graph, x: map<(int, int), real>, f: set<int>, k: nat): Option<(int, int, int)>
    decreases |g.edges| - k
  {
    if k >= |g.edges| then None
    else if k in f && LeafAt(g, x, f, k).Some? then LeafAt(g, x, f, k)
    else FirstLeafPair(g, x, f, k + 1)
  }

  /** The leaf scan of one iteration: fractional edges in increasing index order. */
  method FindLeafPair(g: Graph, x: map<(int, int), real>, f: set<int>) returns (r: Option<(int, int, int)>)
    ensures r == FirstLeafPair(g, x, f, 0)
  {
    for k := 0 to |g.edges|
      invariant FirstLeafPair(g, x, f, 0) == FirstLeafPair(g, x, f, k)
    {
      if k in f {
        var pair := LeafPairAt(g, x, f, k);
        if pair.Some? {
          return pair;
        }
      }
    }
    return None;
  }

  /** The checks of the leaf scan at edge k: the first end, then the second. */
  method LeafPairAt(g: Graph, x: map<(int, int), real>, f: set<int>, k: int) returns (r: Option<(int, int, int)>)
    requires 0 <= k < |g.edges|
    ensures r == LeafAt(g, x, f, k)
  {
    var (u, v) := g.edges[k];
    var xu := Get(x, k, u);
    var xv := Get(x, k, v);
    var du := Degree(g, f, u);
    if du == 1 && xu > Epsilon {
      var p := EdgeWeight(g, k);
      if xu * p <= LeafBound {
        return Some((v, k, u));
      }
    }
    var dv := Degree(g, f, v);
    if dv == 1 && xv > Epsilon {
      var p := EdgeWeight(g, k);
      if xv * p <= LeafBound {
        return Some((u, k, v));
      }
    }
    return None;
  }

  /**
   * A leaf pair found from k on names a fractional edge at or after k whose
   * named end qualifies, the other end receiving the edge, and no earlier
   * fractional edge from k on offers one.
   */
  lemma {:induction false} FirstLeafPairSound(g: Graph, x: map<(int, int), real>, f: set<int>, k: nat)
    ensures var r := FirstLeafPair(g, x, f, k);
      r.Some? ==>
        var (o, e, w) := r.value;
        && k <= e < |g.edges| && e in f && EndsOf(g, e, o, w) && LeafEnd(g, x, f, e, w)
        && forall e' :: k <= e' < e && e' in f ==>
             !LeafEnd(g, x, f, e', g.edges[e'].0) && !LeafEnd(g, x, f, e', g.edges[e'].1)
    decreases |g.edges| - k
  {
    if k < |g.edges| && !(k in f && LeafAt(g, x, f, k).Some?) {
      FirstLeafPairSound(g, x, f, k + 1);
    }
  }

  /** No leaf pair from k on means no fractional edge from k on has an end that qualifies. */
  lemma {:induction false} FirstLeafPairComplete(g: Graph, x: map<(int, int), real>, f: set<int>, k: nat)
    ensures FirstLeafPair(g, x, f, k).None? ==>
      forall e :: k <= e < |g.edges| && e in f ==>
        !LeafEnd(g, x, f, e, g.edges[e].0) && !LeafEnd(g, x, f, e, g.edges[e].1)
    decreases |g.edges| - k
  {
    if k < |g.edges| && !(k in f && LeafAt(g, x, f, k).Some?) {
      FirstLeafPairComplete(g, x, f, k + 1);
    }
  }
}
