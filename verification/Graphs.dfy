/** Directed graphs given by successor lists, and the facts shared by the depth-first searches. */
module Graphs {

  ghost predicate Edge<N>(g: map<N, seq<N>>, u: N, v: N) {
    u in g && v in g[u]
  }

  ghost predicate Walk<N>(g: map<N, seq<N>>, w: seq<N>) {
    forall i :: 0 <= i < |w| - 1 ==> Edge(g, w[i], w[i + 1])
  }

  ghost predicate ClosedWalk<N>(g: map<N, seq<N>>, w: seq<N>) {
    |w| >= 2 && Walk(g, w) && w[0] == w[|w| - 1]
  }

  ghost predicate HasCycle<N(!new)>(g: map<N, seq<N>>) {
    exists w :: ClosedWalk(g, w)
  }

  /** A walk from `u` to `v`, possibly of length zero. */
  ghost predicate Connects<N>(g: map<N, seq<N>>, w: seq<N>, u: N, v: N) {
    w != [] && Walk(g, w) && w[0] == u && w[|w| - 1] == v
  }

  ghost predicate Reaches<N(!new)>(g: map<N, seq<N>>, u: N, v: N) {
    exists w :: Connects(g, w, u, v)
  }

  ghost function Successors<N>(g: map<N, seq<N>>, u: N): seq<N> {
    if u in g then g[u] else []
  }

  ghost function Nodes<N>(g: map<N, seq<N>>): set<N> {
    g.Keys + set u, i | u in g && 0 <= i < |g[u]| :: g[u][i]
  }

  predicate Distinct<N(==)>(s: seq<N>) {
    forall i, j :: 0 <= i < j < |s| ==> s[i] != s[j]
  }

  lemma DistinctSnoc<N>(s: seq<N>, x: N)
    requires Distinct(s) && x !in s
    ensures Distinct(s + [x])
  {
  }

  lemma DistinctPrefix<N>(s: seq<N>, x: N)
    requires Distinct(s + [x])
    ensures Distinct(s) && x !in s
  {
    forall i, j | 0 <= i < j < |s + [x]|
      ensures (s + [x])[i] != (s + [x])[j]
    {
    }
    assert forall i :: 0 <= i < |s| ==> s[i] == (s + [x])[i];
    assert (s + [x])[|s|] == x;
  }

  /** Every successor of a listed node is listed before it. */
  ghost predicate Topological<N>(g: map<N, seq<N>>, order: seq<N>) {
    forall i, v :: 0 <= i < |order| && v in Successors(g, order[i]) ==> v in order[..i]
  }

  lemma TopologicalSnoc<N>(g: map<N, seq<N>>, order: seq<N>, n: N)
    requires Topological(g, order)
    requires forall v :: v in Successors(g, n) ==> v in order
    ensures Topological(g, order + [n])
  {
    var o := order + [n];
    forall i, v | 0 <= i < |o| && v in Successors(g, o[i])
      ensures v in o[..i]
    {
      if i < |order| {
        assert o[..i] == order[..i];
      } else {
        assert o[..i] == order;
      }
    }
  }

  /** Walking along edges moves towards the front of a topological order. */
  lemma {:induction false} WalkDescends<N>(g: map<N, seq<N>>, order: seq<N>, w: seq<N>, i: nat)
    requires Topological(g, order) && w != [] && Walk(g, w)
    requires i < |order| && w[0] == order[i]
    ensures w[|w| - 1] in order
    ensures |w| > 1 ==> w[|w| - 1] in order[..i]
    decreases |w|
  {
    if |w| > 1 {
      assert Edge(g, w[0], w[1]);
      assert w[1] in Successors(g, order[i]);
      assert w[1] in order[..i];
      var j :| 0 <= j < i && order[j] == w[1];
      assert w[1..][0] == order[j];
      assert Walk(g, w[1..]) by {
        forall k | 0 <= k < |w[1..]| - 1
          ensures Edge(g, w[1..][k], w[1..][k + 1])
        {
          assert Edge(g, w[k + 1], w[k + 2]);
        }
      }
      WalkDescends(g, order, w[1..], j);
      if |w| > 2 {
        var last := w[|w| - 1];
        assert last in order[..j];
        var k :| 0 <= k < j && order[k] == last;
        assert order[..i][k] == last;
      }
    }
  }

  /** No closed walk starts inside a topological order. */
  lemma TopologicalHasNoCycle<N>(g: map<N, seq<N>>, order: seq<N>, w: seq<N>)
    requires Topological(g, order)
    requires w != [] && w[0] in order
    ensures !ClosedWalk(g, w)
  {
    if ClosedWalk(g, w) {
      var i := FirstIndex(order, w[0]);
      WalkDescends(g, order, w, i);
    }
  }

  ghost function FirstIndex<N>(s: seq<N>, x: N): (i: nat)
    requires x in s
    ensures i < |s| && s[i] == x && x !in s[..i]
  {
    if s[0] == x then 0 else 1 + FirstIndex(s[1..], x)
  }

  /** A topological order that lists every node with successors rules out cycles altogether. */
  lemma CoveringOrderIsAcyclic<N(!new)>(g: map<N, seq<N>>, order: seq<N>)
    requires Topological(g, order)
    requires forall n :: n in g ==> n in order
    ensures !HasCycle(g)
  {
    forall w
      ensures !ClosedWalk(g, w)
    {
      if ClosedWalk(g, w) {
        assert Edge(g, w[0], w[1]);
        TopologicalHasNoCycle(g, order, w);
      }
    }
  }

  lemma WalkSnoc<N>(g: map<N, seq<N>>, w: seq<N>, v: N)
    requires Walk(g, w)
    requires w != [] ==> Edge(g, w[|w| - 1], v)
    ensures Walk(g, w + [v])
  {
  }

  lemma WalkPrefix<N>(g: map<N, seq<N>>, w: seq<N>, v: N)
    requires Walk(g, w + [v])
    ensures Walk(g, w)
  {
    forall i | 0 <= i < |w| - 1
      ensures Edge(g, w[i], w[i + 1])
    {
      assert Edge(g, (w + [v])[i], (w + [v])[i + 1]);
    }
  }

  /** The nodes of a topological order that holds `root` include everything `root` reaches. */
  lemma OrderIsClosed<N(!new)>(g: map<N, seq<N>>, order: seq<N>, root: N, v: N)
    requires Topological(g, order) && root in order
    requires Reaches(g, root, v)
    ensures v in order
  {
    var w :| Connects(g, w, root, v);
    WalkDescends(g, order, w, FirstIndex(order, root));
  }

  lemma ReachesSnoc<N(!new)>(g: map<N, seq<N>>, root: N, u: N, v: N)
    requires Reaches(g, root, u) && Edge(g, u, v)
    ensures Reaches(g, root, v)
  {
    var w :| Connects(g, w, root, u);
    WalkSnoc(g, w, v);
    assert Connects(g, w + [v], root, v);
  }

  lemma ReachesCons<N(!new)>(g: map<N, seq<N>>, root: N, u: N, v: N)
    requires Edge(g, root, u) && Reaches(g, u, v)
    ensures Reaches(g, root, v)
  {
    var w :| Connects(g, w, u, v);
    var w' := [root] + w;
    forall i | 0 <= i < |w'| - 1
      ensures Edge(g, w'[i], w'[i + 1])
    {
      if i > 0 { assert Edge(g, w[i - 1], w[i]); }
    }
    assert Connects(g, w', root, v);
  }

  lemma ReachesSelf<N(!new)>(g: map<N, seq<N>>, root: N)
    ensures Reaches(g, root, root)
  {
    assert Connects(g, [root], root, root);
  }

  /** An edge back to a node of a walk closes a cycle. */
  lemma ClosePath<N>(g: map<N, seq<N>>, path: seq<N>, i: nat, f: N)
    requires Walk(g, path) && i < |path| && path[i] == f && Edge(g, path[|path| - 1], f)
    ensures ClosedWalk(g, path[i..] + [f]) && (path[i..] + [f])[0] == f
  {
    var w := path[i..];
    forall k | 0 <= k < |w| - 1
      ensures Edge(g, w[k], w[k + 1])
    {
      assert Edge(g, path[i + k], path[i + k + 1]);
    }
    WalkSnoc(g, w, f);
  }

  lemma {:induction false} DistinctBound<N>(s: seq<N>, all: set<N>)
    requires Distinct(s) && forall x :: x in s ==> x in all
    ensures |s| <= |all|
    decreases |s|
  {
    if s != [] {
      var n := |s| - 1;
      assert forall x :: x in s[..n] ==> x in all - {s[n]};
      DistinctBound(s[..n], all - {s[n]});
    }
  }
}
