/** Directed graphs over seat ids, paths whose inner nodes stay in a given set,
    and the strongly connected components of a subgraph. */
module Graphs {

  /** `g[s]` lists the successors of node `s`, in the order they are followed. */
  type Graph = seq<seq<nat>>

  predicate ValidGraph(g: Graph) {
    forall s, k :: 0 <= s < |g| && 0 <= k < |g[s]| ==> g[s][k] < |g|
  }

  ghost predicate IsPath(g: Graph, inner: set<nat>, p: seq<nat>) {
    && p != []
    && (forall i :: 0 <= i < |p| ==> p[i] < |g|)
    && (forall i :: 0 <= i < |p| - 1 ==> p[i] in inner && p[i + 1] in g[p[i]])
  }

  /** A path leads from `a` to `b`, and every node it leaves is in `inner`. */
  ghost predicate Reach(g: Graph, inner: set<nat>, a: nat, b: nat) {
    exists p :: IsPath(g, inner, p) && p[0] == a && p[|p| - 1] == b
  }

  lemma ReachRefl(g: Graph, inner: set<nat>, a: nat)
    requires a < |g|
    ensures Reach(g, inner, a, a)
  {
    assert IsPath(g, inner, [a]);
  }

  lemma ReachEdge(g: Graph, inner: set<nat>, a: nat, b: nat)
    requires ValidGraph(g) && a < |g| && a in inner && b in g[a]
    ensures Reach(g, inner, a, b)
  {
    assert IsPath(g, inner, [a, b]);
  }

  lemma ReachTrans(g: Graph, inner: set<nat>, a: nat, b: nat, c: nat)
    requires Reach(g, inner, a, b) && Reach(g, inner, b, c)
    ensures Reach(g, inner, a, c)
  {
    var p :| IsPath(g, inner, p) && p[0] == a && p[|p| - 1] == b;
    var q :| IsPath(g, inner, q) && q[0] == b && q[|q| - 1] == c;
    var r := p[..|p| - 1] + q;
    forall i | 0 <= i < |r| - 1
      ensures r[i] in inner && r[i + 1] in g[r[i]]
    {
      if i < |p| - 1 {
        assert r[i] == p[i];
        assert r[i + 1] == p[i + 1];
      } else {
        assert r[i] == q[i - (|p| - 1)];
        assert r[i + 1] == q[i + 1 - (|p| - 1)];
      }
    }
    assert IsPath(g, inner, r) && r[0] == a && r[|r| - 1] == c;
  }

  lemma ReachMono(g: Graph, inner: set<nat>, wider: set<nat>, a: nat, b: nat)
    requires inner <= wider && Reach(g, inner, a, b)
    ensures Reach(g, wider, a, b)
  {
    var p :| IsPath(g, inner, p) && p[0] == a && p[|p| - 1] == b;
    assert IsPath(g, wider, p);
  }

  /** Paths over `inner` cannot leave a set that the edges of `inner` stay in. */
  lemma {:induction false} ReachStays(g: Graph, inner: set<nat>, region: set<nat>, a: nat, b: nat)
    requires Reach(g, inner, a, b) && a in region
    requires forall v, w :: v in inner && v in region && v < |g| && w in g[v] ==> w in region
    ensures b in region
  {
    var p :| IsPath(g, inner, p) && p[0] == a && p[|p| - 1] == b;
    var i := 0;
    while i < |p| - 1
      invariant 0 <= i <= |p| - 1 && p[i] in region
    {
      assert p[i] in inner && p[i + 1] in g[p[i]];
      i := i + 1;
    }
  }

  /** The component of `a` in the subgraph induced by `live`. */
  ghost predicate Mutual(g: Graph, live: set<nat>, a: nat, b: nat) {
    a in live && b in live && Reach(g, live, a, b) && Reach(g, live, b, a)
  }

  /** `comp` is exactly the component of each of its members. */
  ghost predicate IsScc(g: Graph, live: set<nat>, comp: set<nat>) {
    && comp != {} && comp <= live
    && (forall a, b :: a in comp ==> (b in comp <==> Mutual(g, live, a, b)))
  }

  /** Every successor of a member is a member or is settled. */
  ghost predicate ClosedBut(g: Graph, comp: set<nat>, settled: set<nat>) {
    forall v, w :: v in comp && v < |g| && w in g[v] ==> w in comp || w in settled
  }

  /** What the walk establishes locally is the textbook definition. */
  lemma LocalScc(g: Graph, settled: set<nat>, comp: set<nat>, live: set<nat>)
    requires comp != {} && comp <= live && live !! settled
    requires ClosedBut(g, comp, settled)
    requires forall a, b :: a in comp && b in comp ==> Reach(g, comp, a, b)
    ensures IsScc(g, live, comp)
  {
    forall a, b | a in comp
      ensures b in comp <==> Mutual(g, live, a, b)
    {
      if b in comp {
        ReachMono(g, comp, live, a, b);
        ReachMono(g, comp, live, b, a);
      }
      if Mutual(g, live, a, b) {
        ReachStays(g, live, comp + settled, a, b);
      }
    }
  }

  /** The nodes reachable from one of the roots. */
  ghost function Everything(g: Graph): set<nat> {
    set v: nat {:trigger g[v]} | v < |g|
  }

  ghost predicate Reachable(g: Graph, roots: set<nat>, v: nat) {
    exists r :: r in roots && Reach(g, Everything(g), r, v)
  }

  ghost function ReachableSet(g: Graph, roots: set<nat>): set<nat> {
    set v: nat | v < |g| && Reachable(g, roots, v)
  }

  lemma ReachableRoots(g: Graph, roots: set<nat>)
    requires forall r :: r in roots ==> r < |g|
    ensures roots <= ReachableSet(g, roots)
  {
    forall r | r in roots ensures r in ReachableSet(g, roots) {
      ReachRefl(g, Everything(g), r);
    }
  }

  lemma ReachableStep(g: Graph, roots: set<nat>, v: nat, w: nat)
    requires ValidGraph(g) && v in ReachableSet(g, roots) && w in g[v]
    ensures w in ReachableSet(g, roots)
  {
    var r :| r in roots && Reach(g, Everything(g), r, v);
    ReachEdge(g, Everything(g), v, w);
    ReachTrans(g, Everything(g), r, v, w);
  }

  /** The reachable set is the least one that holds the roots and is closed. */
  lemma ReachableLeast(g: Graph, roots: set<nat>, closed: set<nat>)
    requires roots <= closed && ClosedBut(g, closed, {})
    ensures ReachableSet(g, roots) <= closed
  {
    forall v | v in ReachableSet(g, roots) ensures v in closed {
      var r :| r in roots && Reach(g, Everything(g), r, v);
      ReachStays(g, Everything(g), closed, r, v);
    }
  }
}
