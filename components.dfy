/**
 * Connected components of a graph restricted to a subset of its edges.
 * Vertices are first replaced by their position in the vertex list (the
 * first position, for a vertex listed twice); blocks of positions are merged
 * edge by edge, and each final block is turned back into vertex values.
 */
module Components {
  import opened Core

  /** Some edge of s joins a and b. */
  ghost predicate Joined(g: Graph, s: set<int>, a: int, b: int) {
    exists e :: e in s && 0 <= e < |g.edges| &&
      ((g.edges[e].0 == a && g.edges[e].1 == b) || (g.edges[e].0 == b && g.edges[e].1 == a))
  }

  /** w is a walk along edges of s. */
  ghost predicate IsWalk(g: Graph, s: set<int>, w: seq<int>) {
    |w| > 0 && forall i :: 0 <= i < |w| - 1 ==> Joined(g, s, w[i], w[i + 1])
  }

  /** A walk along edges of s leads from a to b. */
  ghost predicate Connected(g: Graph, s: set<int>, a: int, b: int) {
    exists w :: IsWalk(g, s, w) && w[0] == a && w[|w| - 1] == b
  }

  lemma ConnectedRefl(g: Graph, s: set<int>, a: int)
    ensures Connected(g, s, a, a)
  {
    assert IsWalk(g, s, [a]);
  }

  /** Two walks glued by one edge of s form a walk. */
  lemma ConnectedThroughEdge(g: Graph, s: set<int>, a: int, b: int, c: int, d: int)
    requires Connected(g, s, a, b) && Joined(g, s, b, c) && Connected(g, s, c, d)
    ensures Connected(g, s, a, d)
  {
    var w1 :| IsWalk(g, s, w1) && w1[0] == a && w1[|w1| - 1] == b;
    var w2 :| IsWalk(g, s, w2) && w2[0] == c && w2[|w2| - 1] == d;
    var w := w1 + w2;
    forall i | 0 <= i < |w| - 1 ensures Joined(g, s, w[i], w[i + 1]) {
      if i < |w1| - 1 {
        assert w[i] == w1[i] && w[i + 1] == w1[i + 1];
      } else if i == |w1| - 1 {
        assert w[i] == b && w[i + 1] == c;
      } else {
        assert w[i] == w2[i - |w1|] && w[i + 1] == w2[i - |w1| + 1];
      }
    }
    assert IsWalk(g, s, w) && w[0] == a && w[|w| - 1] == d;
  }

  /** The first position of v in vs, as list.index finds it. */
  function IndexOf(vs: seq<int>, v: int): (r: nat)
    requires v in vs
    ensures r < |vs| && vs[r] == v
    ensures forall j :: 0 <= j < r ==> vs[j] != v
  {
    if vs[0] == v then 0 else 1 + IndexOf(vs[1..], v)
  }

  predicate Distinct(vs: seq<int>) {
    forall i, j :: 0 <= i < j < |vs| ==> vs[i] != vs[j]
  }

  /** blocks partitions the positions 0 .. n-1 into non-empty blocks. */
  ghost predicate Partition(blocks: set<set<int>>, n: int) {
    && (forall a :: a in blocks ==> a != {} && forall i :: i in a ==> 0 <= i < n)
    && (forall a, b :: a in blocks && b in blocks && a != b ==> a !! b)
    && (forall i :: 0 <= i < n ==> Covered(blocks, i))
  }

  /** Some block holds position i. */
  ghost predicate Covered(blocks: set<set<int>>, i: int) {
    exists a :: a in blocks && i in a
  }

  /** The indices 0 .. n-1. */
  function Indices(n: nat): (r: set<int>)
    ensures forall e :: e in r <==> 0 <= e < n
  {
    if n == 0 then {} else Indices(n - 1) + {n - 1}
  }

  /** Merging two distinct blocks keeps a partition. */
  lemma MergeKeepsPartition(blocks: set<set<int>>, a: set<int>, b: set<int>, n: int)
    requires Partition(blocks, n) && a in blocks && b in blocks && a != b
    ensures Partition(blocks - {a, b} + {a + b}, n)
  {
    var r := blocks - {a, b} + {a + b};
    forall i | 0 <= i < n ensures Covered(r, i) {
      assert Covered(blocks, i);
      var c :| c in blocks && i in c;
      if c == a || c == b {
        assert a + b in r;
      } else {
        assert c in r;
      }
    }
  }

  /** The vertex values at the positions in a. */
  function Image(vs: seq<int>, a: set<int>): set<int> {
    set i | i in a && 0 <= i < |vs| :: vs[i]
  }

  /** Every edge of s below `upto` has both endpoint positions in the same block. */
  ghost predicate ClosedUpTo(g: Graph, s: set<int>, blocks: set<set<int>>, upto: int)
    requires EndpointsKnown(g.vertices, g.edges)
  {
    forall a, e :: a in blocks && e in s && 0 <= e < upto && e < |g.edges| ==>
      (IndexOf(g.vertices, g.edges[e].0) in a <==> IndexOf(g.vertices, g.edges[e].1) in a)
  }

  /** Every two positions of a block hold vertices connected along s. */
  ghost predicate BlocksConnected(g: Graph, s: set<int>, blocks: set<set<int>>) {
    forall a, i, j :: a in blocks && i in a && j in a && 0 <= i < |g.vertices| && 0 <= j < |g.vertices| ==>
      Connected(g, s, g.vertices[i], g.vertices[j])
  }

  /** Merge the blocks holding positions p and q (edge e joins their vertices). */
  method Merge(g: Graph, s: set<int>, blocks: set<set<int>>, p: int, q: int, ghost e: int)
    returns (r: set<set<int>>)
    requires Partition(blocks, |g.vertices|) && BlocksConnected(g, s, blocks)
    requires 0 <= p < |g.vertices| && 0 <= q < |g.vertices|
    requires e in s && 0 <= e < |g.edges| && g.edges[e] == (g.vertices[p], g.vertices[q])
    ensures Partition(r, |g.vertices|) && BlocksConnected(g, s, r)
    ensures exists c :: c in r && p in c && q in c
    ensures forall c :: c in r ==> c in blocks || exists a, b :: a in blocks && b in blocks && c == a + b && p in a && q in b
    ensures forall a :: a in blocks && p !in a && q !in a ==> a in r
  {
    assert Covered(blocks, p) && Covered(blocks, q);
    var a :| a in blocks && p in a;
    if q in a {
      return blocks;
    }
    var b :| b in blocks && q in b;
    r := blocks - {a, b} + {a + b};
    assert Joined(g, s, g.vertices[p], g.vertices[q]);
    forall c, i, j | c in r && i in c && j in c && 0 <= i < |g.vertices| && 0 <= j < |g.vertices|
      ensures Connected(g, s, g.vertices[i], g.vertices[j])
    {
      if c == a + b && !(i in a && j in a) && !(i in b && j in b) {
        if i in a {
          ConnectedRefl(g, s, g.vertices[i]);
          ConnectedThroughEdge(g, s, g.vertices[i], g.vertices[p], g.vertices[q], g.vertices[j]);
        } else {
          ConnectedThroughEdge(g, s, g.vertices[i], g.vertices[q], g.vertices[p], g.vertices[j]);
        }
      }
    }
    MergeKeepsPartition(blocks, a, b, |g.vertices|);
    assert a + b in r;
  }

  /** Merge, edge by edge in increasing index order, the blocks of the endpoints of each edge of s. */
  method MergeAlongEdges(g: Graph, s: set<int>) returns (blocks: set<set<int>>)
    requires EndpointsKnown(g.vertices, g.edges)
    ensures Partition(blocks, |g.vertices|) && BlocksConnected(g, s, blocks)
    ensures ClosedUpTo(g, s, blocks, |g.edges|)
  {
    var n := |g.vertices|;
    blocks := set i | 0 <= i < n :: {i};
    forall a, i, j | a in blocks && i in a && j in a && 0 <= i < n && 0 <= j < n
      ensures Connected(g, s, g.vertices[i], g.vertices[j])
    {
      ConnectedRefl(g, s, g.vertices[i]);
    }
    forall i | 0 <= i < n ensures Covered(blocks, i) {
      assert {i} in blocks;
    }
    for k := 0 to |g.edges|
      invariant Partition(blocks, n) && BlocksConnected(g, s, blocks)
      invariant ClosedUpTo(g, s, blocks, k)
    {
      if k in s {
        var p := IndexOf(g.vertices, g.edges[k].0);
        var q := IndexOf(g.vertices, g.edges[k].1);
        var before := blocks;
        blocks := Merge(g, s, blocks, p, q, k);
        MergeKeepsClosed(g, s, before, blocks, p, q, k);
      }
    }
  }

  lemma MergeKeepsClosed(g: Graph, s: set<int>, before: set<set<int>>, after: set<set<int>>, p: int, q: int, k: int)
    requires EndpointsKnown(g.vertices, g.edges)
    requires 0 <= k < |g.edges| && k in s
    requires p == IndexOf(g.vertices, g.edges[k].0) && q == IndexOf(g.vertices, g.edges[k].1)
    requires Partition(after, |g.vertices|) && ClosedUpTo(g, s, before, k)
    requires exists c :: c in after && p in c && q in c
    requires forall c :: c in after ==> c in before || exists a, b :: a in before && b in before && c == a + b && p in a && q in b
    ensures ClosedUpTo(g, s, after, k + 1)
  {
    forall c, e | c in after && e in s && 0 <= e < k + 1 && e < |g.edges|
      ensures IndexOf(g.vertices, g.edges[e].0) in c <==> IndexOf(g.vertices, g.edges[e].1) in c
    {
      var pe := IndexOf(g.vertices, g.edges[e].0);
      var qe := IndexOf(g.vertices, g.edges[e].1);
      if e == k {
        var d :| d in after && p in d && q in d;
        if c != d {
          assert c !! d;
        }
      } else if c !in before {
        var a, b :| a in before && b in before && c == a + b && p in a && q in b;
        assert pe in a <==> qe in a;
        assert pe in b <==> qe in b;
      }
    }
  }

  /** List the blocks, each turned into the set of vertex values at its positions. */
  method BlocksToValues(vs: seq<int>, blocks: set<set<int>>) returns (comps: seq<set<int>>, ghost used: seq<set<int>>)
    ensures |used| == |comps|
    ensures forall i :: 0 <= i < |used| ==> used[i] in blocks && comps[i] == Image(vs, used[i])
    ensures forall i, j :: 0 <= i < j < |used| ==> used[i] != used[j]
    ensures forall a :: a in blocks ==> a in used
  {
    comps := [];
    var rest := blocks;
    used := [];
    while rest != {}
      invariant rest <= blocks
      invariant |used| == |comps|
      invariant forall i :: 0 <= i < |used| ==> used[i] in blocks && used[i] !in rest && comps[i] == Image(vs, used[i])
      invariant forall i, j :: 0 <= i < j < |used| ==> used[i] != used[j]
      invariant forall a :: a in blocks ==> a in rest || a in used
      decreases rest
    {
      var a := Pick(rest);
      comps := comps + [Image(vs, a)];
      used := used + [a];
      rest := rest - {a};
    }
  }

  /**
   * The connected components of the graph restricted to `subset` (all edges
   * when it is None), as sets of vertex values.
   */
  method GetComponents(g: Graph, subset: Option<set<int>>) returns (comps: seq<set<int>>)
    requires EndpointsKnown(g.vertices, g.edges)
    requires subset.Some? ==> forall e :: e in subset.value ==> 0 <= e < |g.edges|
    ensures forall i :: 0 <= i < |comps| ==> comps[i] != {}
    ensures forall v :: v in g.vertices <==> exists i :: 0 <= i < |comps| && v in comps[i]
    ensures forall i, a, b :: 0 <= i < |comps| && a in comps[i] && b in comps[i] ==>
              Connected(g, EdgeSubset(g, subset), a, b)
    ensures Distinct(g.vertices) ==> forall i, j :: 0 <= i < j < |comps| ==> comps[i] !! comps[j]
    ensures Distinct(g.vertices) ==> forall e, i :: e in EdgeSubset(g, subset) && 0 <= i < |comps| ==>
              (g.edges[e].0 in comps[i] <==> g.edges[e].1 in comps[i])
  {
    var s := EdgeSubset(g, subset);
    var blocks := MergeAlongEdges(g, s);
    ghost var used;
    comps, used := BlocksToValues(g.vertices, blocks);
    ImagesNonEmpty(g.vertices, blocks, comps, used);
    ImagesCover(g.vertices, blocks, comps, used);
    ImagesConnected(g, s, blocks, comps, used);
    if Distinct(g.vertices) {
      ImagesDisjoint(g.vertices, blocks, comps, used);
      ImagesClosed(g, s, blocks, comps, used);
    }
  }

  /** The edges the components are computed over. */
  function EdgeSubset(g: Graph, subset: Option<set<int>>): set<int> {
    if subset.Some? then subset.value else Indices(|g.edges|)
  }

  lemma ImagesNonEmpty(vs: seq<int>, blocks: set<set<int>>, comps: seq<set<int>>, used: seq<set<int>>)
    requires Partition(blocks, |vs|)
    requires |used| == |comps| && forall i :: 0 <= i < |used| ==> used[i] in blocks && comps[i] == Image(vs, used[i])
    ensures forall i :: 0 <= i < |comps| ==> comps[i] != {}
  {
    forall i | 0 <= i < |comps| ensures comps[i] != {} {
      assert used[i] != {};
      if forall j :: j !in used[i] {
        assert false;
      }
      var j :| j in used[i];
      assert vs[j] in comps[i];
    }
  }

  lemma ImagesCover(vs: seq<int>, blocks: set<set<int>>, comps: seq<set<int>>, used: seq<set<int>>)
    requires Partition(blocks, |vs|)
    requires |used| == |comps| && forall i :: 0 <= i < |used| ==> used[i] in blocks && comps[i] == Image(vs, used[i])
    requires forall a :: a in blocks ==> a in used
    ensures forall v :: v in vs <==> exists i :: 0 <= i < |comps| && v in comps[i]
  {
    forall v ensures v in vs <==> exists i :: 0 <= i < |comps| && v in comps[i] {
      if v in vs {
        var j := IndexOf(vs, v);
        assert Covered(blocks, j);
        var a :| a in blocks && j in a;
        var i :| 0 <= i < |used| && used[i] == a;
        assert v in comps[i];
      }
    }
  }

  lemma ImagesConnected(g: Graph, s: set<int>, blocks: set<set<int>>, comps: seq<set<int>>, used: seq<set<int>>)
    requires BlocksConnected(g, s, blocks)
    requires |used| == |comps| && forall i :: 0 <= i < |used| ==> used[i] in blocks && comps[i] == Image(g.vertices, used[i])
    ensures forall i, a, b :: 0 <= i < |comps| && a in comps[i] && b in comps[i] ==> Connected(g, s, a, b)
  {
    forall i, x, y | 0 <= i < |comps| && x in comps[i] && y in comps[i] ensures Connected(g, s, x, y) {
      var jx :| jx in used[i] && 0 <= jx < |g.vertices| && g.vertices[jx] == x;
      var jy :| jy in used[i] && 0 <= jy < |g.vertices| && g.vertices[jy] == y;
    }
  }

  lemma ImagesDisjoint(vs: seq<int>, blocks: set<set<int>>, comps: seq<set<int>>, used: seq<set<int>>)
    requires Partition(blocks, |vs|) && Distinct(vs)
    requires |used| == |comps| && forall i :: 0 <= i < |used| ==> used[i] in blocks && comps[i] == Image(vs, used[i])
    requires forall i, j :: 0 <= i < j < |used| ==> used[i] != used[j]
    ensures forall i, j :: 0 <= i < j < |comps| ==> comps[i] !! comps[j]
  {
    forall i, j | 0 <= i < j < |comps| ensures comps[i] !! comps[j] {
      forall v | v in comps[i] ensures v !in comps[j] {
        var ji :| ji in used[i] && 0 <= ji < |vs| && vs[ji] == v;
      }
    }
  }

  lemma ImagesClosed(g: Graph, s: set<int>, blocks: set<set<int>>, comps: seq<set<int>>, used: seq<set<int>>)
    requires EndpointsKnown(g.vertices, g.edges) && Distinct(g.vertices)
    requires forall e :: e in s ==> 0 <= e < |g.edges|
    requires Partition(blocks, |g.vertices|) && ClosedUpTo(g, s, blocks, |g.edges|)
    requires |used| == |comps| && forall i :: 0 <= i < |used| ==> used[i] in blocks && comps[i] == Image(g.vertices, used[i])
    ensures forall e, i :: e in s && 0 <= i < |comps| ==> (g.edges[e].0 in comps[i] <==> g.edges[e].1 in comps[i])
  {
    forall e, i | e in s && 0 <= i < |comps| ensures g.edges[e].0 in comps[i] <==> g.edges[e].1 in comps[i] {
      var pe := IndexOf(g.vertices, g.edges[e].0);
      var qe := IndexOf(g.vertices, g.edges[e].1);
      assert pe in used[i] <==> qe in used[i];
      if g.edges[e].0 in comps[i] {
        var j :| j in used[i] && 0 <= j < |g.vertices| && g.vertices[j] == g.edges[e].0;
        assert j == pe;
      }
      if g.edges[e].1 in comps[i] {
        var j :| j in used[i] && 0 <= j < |g.vertices| && g.vertices[j] == g.edges[e].1;
        assert j == qe;
      }
    }
  }
}
