/**
 Walks in a graph given by adjacency sets.  Used by the bridge finder and by the
 link pruning, which both work on the undirected bunch/cluster graph.
 */
module Walks {

  /** An undirected graph on 0..|adj| without self-loops. */
  ghost predicate Undirected(adj: seq<set<nat>>) {
    forall u: nat, v: nat {:trigger v in adj[u]} :: u < |adj| && v in adj[u] ==> v < |adj| && v != u && u in adj[v]
  }

  /** p runs from u to v along edges, inside the node set V. */
  ghost predicate Walk(adj: seq<set<nat>>, V: set<nat>, p: seq<nat>, u: nat, v: nat) {
    && |p| > 0 && p[0] == u && p[|p| - 1] == v
    && (forall i :: 0 <= i < |p| ==> p[i] < |adj| && p[i] in V)
    && (forall i :: 0 <= i < |p| - 1 ==> Step(adj, p, i))
  }

  ghost predicate Step(adj: seq<set<nat>>, p: seq<nat>, i: nat)
    requires i + 1 < |p|
  {
    p[i] < |adj| && p[i + 1] in adj[p[i]]
  }

  ghost predicate SameEdge(a: nat, b: nat, x: nat, y: nat) {
    (a == x && b == y) || (a == y && b == x)
  }

  /** The walk never uses the undirected edge {x, y}. */
  ghost predicate Avoids(p: seq<nat>, x: nat, y: nat) {
    forall i :: 0 <= i < |p| - 1 ==> !SameEdge(p[i], p[i + 1], x, y)
  }

  /** u reaches v inside V without using the edge {x, y}. */
  ghost predicate ReachAvoiding(adj: seq<set<nat>>, V: set<nat>, u: nat, v: nat, x: nat, y: nat) {
    exists p :: Walk(adj, V, p, u, v) && Avoids(p, x, y)
  }

  ghost predicate Reach(adj: seq<set<nat>>, V: set<nat>, u: nat, v: nat) {
    exists p :: Walk(adj, V, p, u, v)
  }

  /** {x, y} is an edge and its two ends are disconnected without it. */
  ghost predicate IsBridge(adj: seq<set<nat>>, V: set<nat>, x: nat, y: nat) {
    x < |adj| && y in adj[x] && !ReachAvoiding(adj, V, x, y, x, y)
  }

  /** {x, y} is the only edge that leaves S. */
  ghost predicate OnlyExit(adj: seq<set<nat>>, S: set<nat>, x: nat, y: nat) {
    forall a: nat, b: nat :: a < |adj| && b in adj[a] && a in S && b !in S ==> SameEdge(a, b, x, y)
  }

  lemma ReachSelf(adj: seq<set<nat>>, V: set<nat>, u: nat)
    requires u < |adj| && u in V
    ensures Reach(adj, V, u, u)
    ensures forall x, y :: ReachAvoiding(adj, V, u, u, x, y)
  {
    assert Walk(adj, V, [u], u, u);
    forall x: nat, y: nat ensures ReachAvoiding(adj, V, u, u, x, y) { assert Avoids([u], x, y); }
  }

  lemma ReachEdge(adj: seq<set<nat>>, V: set<nat>, u: nat, v: nat)
    requires u < |adj| && v < |adj| && v in adj[u] && u in V && v in V
    ensures Reach(adj, V, u, v)
    ensures forall x, y :: !SameEdge(u, v, x, y) ==> ReachAvoiding(adj, V, u, v, x, y)
  {
    var p := [u, v];
    assert Step(adj, p, 0);
    assert Walk(adj, V, p, u, v);
    forall x: nat, y: nat | !SameEdge(u, v, x, y) ensures ReachAvoiding(adj, V, u, v, x, y) { assert Avoids(p, x, y); }
  }

  /** Joining two walks end to end. */
  lemma Join(adj: seq<set<nat>>, V: set<nat>, p: seq<nat>, q: seq<nat>, u: nat, v: nat, w: nat)
    requires Walk(adj, V, p, u, v) && Walk(adj, V, q, v, w)
    ensures Walk(adj, V, p + q[1..], u, w)
    ensures forall x, y :: Avoids(p, x, y) && Avoids(q, x, y) ==> Avoids(p + q[1..], x, y)
  {
    var r := p + q[1..];
    assert forall i :: |p| - 1 <= i < |r| ==> r[i] == q[i - (|p| - 1)];
    forall i | 0 <= i < |r| - 1 ensures Step(adj, r, i) {
      if i < |p| - 1 { assert Step(adj, p, i); } else { assert Step(adj, q, i - (|p| - 1)); }
    }
    forall x: nat, y: nat | Avoids(p, x, y) && Avoids(q, x, y) ensures Avoids(r, x, y) {
      forall i | 0 <= i < |r| - 1 ensures !SameEdge(r[i], r[i + 1], x, y) {
        if i < |p| - 1 {
          assert !SameEdge(p[i], p[i + 1], x, y);
        } else {
          var k := i - (|p| - 1);
          assert !SameEdge(q[k], q[k + 1], x, y);
        }
      }
    }
  }

  lemma ReachTrans(adj: seq<set<nat>>, V: set<nat>, u: nat, v: nat, w: nat)
    requires Reach(adj, V, u, v) && Reach(adj, V, v, w)
    ensures Reach(adj, V, u, w)
  {
    var p :| Walk(adj, V, p, u, v);
    var q :| Walk(adj, V, q, v, w);
    Join(adj, V, p, q, u, v, w);
  }

  lemma AvoidTrans(adj: seq<set<nat>>, V: set<nat>, u: nat, v: nat, w: nat, x: nat, y: nat)
    requires ReachAvoiding(adj, V, u, v, x, y) && ReachAvoiding(adj, V, v, w, x, y)
    ensures ReachAvoiding(adj, V, u, w, x, y)
  {
    var p :| Walk(adj, V, p, u, v) && Avoids(p, x, y);
    var q :| Walk(adj, V, q, v, w) && Avoids(q, x, y);
    Join(adj, V, p, q, u, v, w);
  }

  function Reversed(p: seq<nat>): seq<nat> {
    seq(|p|, i requires 0 <= i < |p| => p[|p| - 1 - i])
  }

  lemma Reverses(adj: seq<set<nat>>, V: set<nat>, p: seq<nat>, u: nat, v: nat)
    requires Undirected(adj) && Walk(adj, V, p, u, v)
    ensures Walk(adj, V, Reversed(p), v, u)
    ensures forall x: nat, y: nat :: Avoids(p, x, y) ==> Avoids(Reversed(p), x, y)
  {
    var r := Reversed(p);
    forall i | 0 <= i < |r| - 1 ensures Step(adj, r, i) {
      assert Step(adj, p, |p| - 2 - i);
    }
    forall x: nat, y: nat | Avoids(p, x, y) ensures Avoids(r, x, y) {
      forall i | 0 <= i < |r| - 1 ensures !SameEdge(r[i], r[i + 1], x, y) {
        var k := |p| - 2 - i;
        assert !SameEdge(p[k], p[k + 1], x, y);
      }
    }
  }

  lemma ReachSym(adj: seq<set<nat>>, V: set<nat>, u: nat, v: nat)
    requires Undirected(adj) && Reach(adj, V, u, v)
    ensures Reach(adj, V, v, u)
  {
    var p :| Walk(adj, V, p, u, v);
    Reverses(adj, V, p, u, v);
  }

  lemma AvoidSym(adj: seq<set<nat>>, V: set<nat>, u: nat, v: nat, x: nat, y: nat)
    requires Undirected(adj) && ReachAvoiding(adj, V, u, v, x, y)
    ensures ReachAvoiding(adj, V, v, u, x, y)
  {
    var p :| Walk(adj, V, p, u, v) && Avoids(p, x, y);
    Reverses(adj, V, p, u, v);
  }

  lemma ReachMono(adj: seq<set<nat>>, V: set<nat>, W: set<nat>, u: nat, v: nat)
    requires V <= W && Reach(adj, V, u, v)
    ensures Reach(adj, W, u, v)
  {
    var p :| Walk(adj, V, p, u, v);
    assert Walk(adj, W, p, u, v);
  }

  lemma AvoidMono(adj: seq<set<nat>>, V: set<nat>, W: set<nat>, u: nat, v: nat, x: nat, y: nat)
    requires V <= W && ReachAvoiding(adj, V, u, v, x, y)
    ensures ReachAvoiding(adj, W, u, v, x, y)
  {
    var p :| Walk(adj, V, p, u, v) && Avoids(p, x, y);
    assert Walk(adj, W, p, u, v);
  }

  /** A walk of a subgraph is a walk of the graph. */
  lemma AvoidSubgraph(sub: seq<set<nat>>, adj: seq<set<nat>>, V: set<nat>, u: nat, v: nat, x: nat, y: nat)
    requires |sub| == |adj| && (forall i :: 0 <= i < |sub| ==> sub[i] <= adj[i]) && ReachAvoiding(sub, V, u, v, x, y)
    ensures ReachAvoiding(adj, V, u, v, x, y)
  {
    var p :| Walk(sub, V, p, u, v) && Avoids(p, x, y);
    forall i | 0 <= i < |p| - 1 ensures Step(adj, p, i) { assert Step(sub, p, i); }
    assert Walk(adj, V, p, u, v);
  }

  /** A walk that stays clear of one end of an edge avoids the edge. */
  lemma InsideAvoids(adj: seq<set<nat>>, V: set<nat>, u: nat, v: nat, x: nat, y: nat)
    requires Reach(adj, V, u, v)
    requires x !in V || y !in V
    ensures ReachAvoiding(adj, V, u, v, x, y)
  {
    var p :| Walk(adj, V, p, u, v);
    assert Avoids(p, x, y);
  }

  /** A walk from inside S to outside S uses the only exit of S. */
  lemma {:induction false} CutSeparates(adj: seq<set<nat>>, V: set<nat>, S: set<nat>, p: seq<nat>, u: nat, v: nat,
                                        x: nat, y: nat)
    requires OnlyExit(adj, S, x, y)
    requires u in S && v !in S
    requires Walk(adj, V, p, u, v)
    ensures !Avoids(p, x, y)
    decreases |p|
  {
    assert |p| >= 2;
    assert Step(adj, p, 0);
    if p[1] in S {
      var q := p[1..];
      forall i | 0 <= i < |q| - 1 ensures Step(adj, q, i) { assert Step(adj, p, i + 1); }
      CutSeparates(adj, V, S, q, p[1], v, x, y);
      var i :| 0 <= i < |q| - 1 && SameEdge(q[i], q[i + 1], x, y);
      assert SameEdge(p[i + 1], p[i + 2], x, y);
    } else {
      assert SameEdge(p[0], p[1], x, y);
    }
  }
}
