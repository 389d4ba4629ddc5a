/**
 CreateOnetRings: one tree per radius, each growing out of the tree of the radius before, and a
 second tree per ring whose inner nodes avoid the inner nodes of the first.
 */
module Rings {
  import opened Sets
  import opened Walks
  import opened Locality
  import opened RingTrees

  /** The tree as an undirected graph. */
  ghost function TreeLinks(t: Tree, n: nat): (adj: seq<set<nat>>)
    requires |t.children| == |t.parent| == n
    ensures |adj| == n
  {
    seq(n, i requires 0 <= i < n =>
        (set c | c in t.children[i]) + (if t.parent[i].Some? then {t.parent[i].value} else {}))
  }

  lemma TreeLinksUndirected(t: Tree, d: seq<seq<real>>, n: nat, root: nat)
    requires TreeInv(t, d, n, root)
    ensures Undirected(TreeLinks(t, n))
  {
    forall u: nat, v: nat | u < n && v in TreeLinks(t, n)[u] ensures v < n && v != u && u in TreeLinks(t, n)[v] {
      if v in t.children[u] {
        ChildLinked(t, d, n, root, u, v);
      } else {
        assert t.parent[u] == Some(v);
        ParentLinked(t, d, n, root, u, v);
      }
    }
  }

  lemma ChildLinked(t: Tree, d: seq<seq<real>>, n: nat, root: nat, u: nat, v: nat)
    requires TreeInv(t, d, n, root) && u < n && v in t.children[u]
    ensures v < n && v != u && u in TreeLinks(t, n)[v]
  {
    assert ListOk(t, n, u);
    assert HangsOk(t, d, n, root, v);
    hide TreeInv;
  }

  lemma ParentLinked(t: Tree, d: seq<seq<real>>, n: nat, root: nat, u: nat, v: nat)
    requires TreeInv(t, d, n, root) && u < n && t.parent[u] == Some(v)
    ensures v < n && v != u && u in TreeLinks(t, n)[v]
  {
    IsListed(t, d, n, root, u);
    assert HangsOk(t, d, n, root, u);
    hide TreeInv;
  }

  /** Every attached node is joined to the root by tree links that miss a given leaf. */
  lemma {:induction false} JoinedToRoot(t: Tree, d: seq<seq<real>>, n: nat, root: nat, x: nat, gone: nat)
    requires TreeInv(t, d, n, root) && x in t.inTree && x != gone
    requires gone < n ==> gone != root && t.children[gone] == []
    ensures Reach(TreeLinks(t, n), t.inTree - {gone}, x, root)
    decreases t.depth[x]
  {
    var adj, V := TreeLinks(t, n), t.inTree - {gone};
    assert HangsOk(t, d, n, root, x);
    if x == root {
      ReachSelf(adj, V, root);
    } else {
      var p := t.parent[x].value;
      IsListed(t, d, n, root, x);
      assert p in t.inTree && p != gone;
      JoinedToRoot(t, d, n, root, p, gone);
      ReachEdge(adj, V, x, p);
      ReachTrans(adj, V, x, p, root);
    }
  }

  lemma {:induction false} RootHasChild(t: Tree, d: seq<seq<real>>, n: nat, root: nat, x: nat)
    requires TreeInv(t, d, n, root) && x in t.inTree && x != root
    ensures t.children[root] != []
    decreases t.depth[x]
  {
    assert HangsOk(t, d, n, root, x);
    IsListed(t, d, n, root, x);
    if t.parent[x].value != root {
      RootHasChild(t, d, n, root, t.parent[x].value);
    }
  }

  ghost predicate AllJoined(t: Tree, n: nat, V: set<nat>) {
    |t.children| == |t.parent| == n && forall u, v :: u in V && v in V ==> Reach(TreeLinks(t, n), V, u, v)
  }

  /** Losing a node without children leaves the rest of the tree connected. */
  lemma LeafLoss(t: Tree, d: seq<seq<real>>, n: nat, root: nat, gone: nat)
    requires TreeInv(t, d, n, root) && (gone in t.inTree ==> t.children[gone] == [])
    ensures AllJoined(t, n, t.inTree - {gone})
  {
    var adj, V := TreeLinks(t, n), t.inTree - {gone};
    TreeLinksUndirected(t, d, n, root);
    forall u, v | u in V && v in V ensures Reach(adj, V, u, v) {
      if gone == root {
        RootHasChild(t, d, n, root, u);
      }
      assert gone < n ==> t.children[gone] == [] by { if gone < n { assert ListOk(t, n, gone); } }
      JoinedToRoot(t, d, n, root, u, gone);
      JoinedToRoot(t, d, n, root, v, gone);
      ReachSym(adj, V, v, root);
      ReachTrans(adj, V, u, root, v);
    }
  }

  /** Single-failure tolerance: two trees over the same nodes without a common inner node. */
  lemma OneFailureTolerated(t1: Tree, root1: nat, t2: Tree, root2: nat, d: seq<seq<real>>, n: nat, gone: nat)
    requires TreeInv(t1, d, n, root1) && TreeInv(t2, d, n, root2) && t1.inTree == t2.inTree
    requires t1.Inner() !! t2.Inner()
    ensures AllJoined(t1, n, t1.inTree - {gone}) || AllJoined(t2, n, t2.inTree - {gone})
  {
    if gone in t1.Inner() {
      assert gone !in t2.Inner();
      LeafLoss(t2, d, n, root2, gone);
    } else {
      LeafLoss(t1, d, n, root1, gone);
    }
  }

  /** AddChild for each entry of the list of k. */
  method AddChildren(list: seq<nat>, k: nat, parent: seq<Option<nat>>)
    returns (list': seq<nat>, parent': seq<Option<nat>>)
    requires forall x: nat :: x in list ==> x < |parent|
    ensures list' == list && |parent'| == |parent|
    ensures forall x: nat :: x < |parent| ==> parent'[x] == if x in list then Some(k) else parent[x]
  {
    list', parent' := [], parent;
    for i := 0 to |list|
      invariant list' == list[..i] && |parent'| == |parent|
      invariant forall x: nat :: x < |parent| ==> parent'[x] == if x in list[..i] then Some(k) else parent[x]
    {
      assert list[i] in list;
      list', parent' := list' + [list[i]], parent'[list[i] := Some(k)];
    }
  }

  /** The tree rebuilt from the child lists alone, as both deep copies do: a node gets the parent
      whose list is copied last, so this is the original tree only because of the invariant. */
  method Rebuild(t: Tree, ghost d: seq<seq<real>>, n: nat, ghost root: nat)
    returns (parent: seq<Option<nat>>, children: seq<seq<nat>>)
    requires TreeInv(t, d, n, root)
    ensures parent == t.parent && children == t.children
  {
    parent, children := seq(n, _ => None), seq(n, _ => []);
    assert t.Shaped(n);
    var todo := t.inTree;
    while todo != {}
      invariant todo <= t.inTree && |children| == |parent| == n
      invariant forall k: nat :: k < n && k in t.inTree - todo ==> children[k] == t.children[k]
      invariant forall k: nat :: k < n && k !in t.inTree - todo ==> children[k] == []
      invariant forall x: nat :: x < n ==>
        parent[x] == if t.parent[x].Some? && t.parent[x].value !in todo then t.parent[x] else None
      decreases todo
    {
      var k :| k in todo;
      assert k in Below(n);
      CopyFacts(t, d, n, root, k);
      todo := todo - {k};
      var list;
      list, parent := AddChildren(t.children[k], k, parent);
      children := children[k := list];
    }
    forall k: nat | k < n ensures children[k] == t.children[k] {
      assert ListOk(t, n, k);
    }
  }

  method DeepCopy(b: Builder) returns (c: Builder)
    requires b.Valid()
    ensures fresh(c) && c.n == b.n && c.root == b.root && c.d == b.d
    ensures c.View() == b.View()
  {
    c := new Builder(b.n, b.root, b.d);
    c.visited, c.distance, c.depth, c.inTree := b.visited, b.distance, b.depth, b.inTree;
    c.parent, c.children := Rebuild(b.View(), b.d, b.n, b.root);
  }

  lemma CopyFacts(t: Tree, d: seq<seq<real>>, n: nat, root: nat, k: nat)
    requires TreeInv(t, d, n, root) && k < n
    ensures forall x: nat :: x in t.children[k] <==> x < n && t.parent[x] == Some(k)
  {
    assert ListOk(t, n, k);
  }

  /** The nodes within the radius of the root, by the distance oracle in either direction. */
  function Allowed(dist2: seq<seq<Dist>>, n: nat, root: nat, radius: real): (s: set<nat>)
    requires Square(dist2, n) && root < n
    ensures s <= Below(n)
  {
    set x: nat | x in Below(n) && (dist2[root][x].LessEq(Fin(radius)) || dist2[x][root].LessEq(Fin(radius)))
  }

  const RADIUSES: seq<real> := [20.0, 30.0, 50.0, 80.0, 100.0, 130.0, 150.0, 200.0, 300.0, 500.0, 1000.0, 10000.0]

  /** What the ring before ring k could hold. */
  ghost function AllowedBefore(dist2: seq<seq<Dist>>, n: nat, root: nat, k: nat): set<nat>
    requires Square(dist2, n) && root < n && k <= |RADIUSES|
  {
    if k == 0 then {} else Allowed(dist2, n, root, RADIUSES[k - 1])
  }

  /** The radii increase, so each ring may hold what the one before could. */
  lemma AllowedGrows(dist2: seq<seq<Dist>>, n: nat, root: nat, k: nat)
    requires Square(dist2, n) && root < n && k < |RADIUSES| && dist2[root][root] == Fin(0.0)
    ensures AllowedBefore(dist2, n, root, k) <= Allowed(dist2, n, root, RADIUSES[k])
    ensures AllowedBefore(dist2, n, root, k + 1) == Allowed(dist2, n, root, RADIUSES[k])
    ensures root in Allowed(dist2, n, root, RADIUSES[k])
  {
    var r := RADIUSES[k];
    assert r >= 0.0 && (k > 0 ==> RADIUSES[k - 1] <= r);
  }

  /** Every link of the tree is an edge of the neighbour graph. */
  ghost predicate OnEdges(t: Tree, neighbors: seq<set<nat>>) {
    forall x: nat :: x < |t.parent| && t.parent[x].Some? ==> HangsOnEdge(t, neighbors, x)
  }

  lemma StaysOnEdges(t: Tree, t': Tree, n: nat, root: nat, c: Limits)
    requires Progress(t, t', n, root, c) && OnEdges(t, c.neighbors)
    ensures OnEdges(t', c.neighbors)
  {
  }

  /** One attempt at a first tree: what the first call has left, and the second if there was one. */
  datatype Attempt = Attempt(first: Tree, last: Tree)

  /** The i-th attempt has failed, after the first twenty-one in both modes. */
  ghost predicate AttemptFails(t: Tree, a: Attempt, i: nat, d: seq<seq<real>>, n: nat, root: nat, c: Limits) {
    && Outcome(t, a.first, d, n, root, c) && FellShort(a.first, n, c)
    && (i > 20 ==> Outcome(a.first, a.last, d, n, root, c.(failed := true)) && FellShort(a.last, n, c.(failed := true)))
  }

  /** All the attempts have failed; from the twenty-third on both calls are made in failed mode. */
  ghost predicate AllFail(t: Tree, tries: seq<Attempt>, d: seq<seq<real>>, n: nat, root: nat, c: Limits) {
    forall i :: 0 <= i < |tries| ==> AttemptFails(t, tries[i], i, d, n, root, c.(failed := i > 21))
  }

  /** So many attempts to grow t have failed. */
  ghost predicate CannotGrow(t: Tree, attempts: nat, d: seq<seq<real>>, n: nat, root: nat, c: Limits) {
    exists tries :: |tries| == attempts && AllFail(t, tries, d, n, root, c)
  }

  lemma OneMoreFails(t: Tree, tries: seq<Attempt>, a: Attempt, d: seq<seq<real>>, n: nat, root: nat, c: Limits)
    requires AllFail(t, tries, d, n, root, c)
    requires AttemptFails(t, a, |tries|, d, n, root, c.(failed := |tries| > 21))
    ensures AllFail(t, tries + [a], d, n, root, c)
  {
    hide AttemptFails;
  }

  /** The first tree of a ring: retried on copies, in relaxed mode after 20 failures.  Giving up
      after a number of attempts stands for a loop that need not end. */
  method FirstTree(b: Builder, neighbors: seq<set<nat>>, allowed: set<nat>, radius: real, attempts: nat)
    returns (done: bool)
    requires b.Valid() && |neighbors| == b.n && Names(neighbors, b.n) && allowed <= Below(b.n)
    modifies b
    ensures b.Valid()
    ensures !done ==> b.View() == old(b.View())
    ensures done ==> Grows(old(b.View()), b.View(), b.n) && b.root in b.visited
    ensures done ==> allowed <= b.inTree <= old(b.inTree) + allowed + {b.root}
    ensures done && DepthAtMost(old(b.View()), 3) ==> DepthAtMost(b.View(), 3)
    ensures OnEdges(old(b.View()), neighbors) ==> OnEdges(b.View(), neighbors)
    ensures !done ==>
              CannotGrow(old(b.View()), attempts, b.d, b.n, b.root, Limits(neighbors, allowed, {}, true, radius, false))
  {
    hide TreeInv, Grows, OnEdges, DepthAtMost, AllFail, AttemptFails;
    var relaxed, count, plain := false, 0, Limits(neighbors, allowed, {}, true, radius, false);
    ghost var t, tries: seq<Attempt> := b.View(), [];
    NoneFails(t, b.d, b.n, b.root, plain);
    while count < attempts
      invariant b.View() == t && b.Valid() && |tries| == count && count <= attempts
      invariant AllFail(t, tries, b.d, b.n, b.root, plain) && (relaxed <==> count > 21)
    {
      var ok, back, mode;
      ghost var a;
      ok, back, mode, a := TryGrow(b, plain.(failed := relaxed), count);
      if ok {
        b.visited, b.distance, b.depth, b.inTree, b.parent, b.children :=
          back.visited, back.distance, back.depth, back.inTree, back.parent, back.children;
        return true;
      }
      OneMoreFails(t, tries, a, b.d, b.n, b.root, plain);
      relaxed := mode;
      tries := tries + [a];
      count := count + 1;
    }
    return false;
  }

  /** One attempt on a copy, in relaxed mode as well after twenty-one failures. */
  method TryGrow(b: Builder, limits: Limits, count: nat)
    returns (ok: bool, back: Builder, relaxed: bool, ghost a: Attempt)
    requires b.Valid() && |limits.neighbors| == b.n && Names(limits.neighbors, b.n) && limits.allowed <= Below(b.n)
    ensures fresh(back) && back.n == b.n && back.root == b.root && back.d == b.d && back.Valid()
    ensures !ok ==> relaxed == (limits.failed || count > 20)
    ensures ok ==> Grows(b.View(), back.View(), b.n) && b.root in back.visited
    ensures ok ==> limits.allowed <= back.inTree <= b.inTree + limits.allowed + {b.root}
    ensures ok && DepthAtMost(b.View(), 3) ==> DepthAtMost(back.View(), 3)
    ensures OnEdges(b.View(), limits.neighbors) ==> OnEdges(back.View(), limits.neighbors)
    ensures !ok ==> AttemptFails(b.View(), a, count, b.d, b.n, b.root, limits)
  {
    hide TreeInv, Progress, Grows, OnEdges, DepthAtMost, Served, GoesThrough, ShortEdges, Small, Outcome, FellShort;
    relaxed := limits.failed;
    var c := DeepCopy(b);
    ghost var t := b.View();
    ok := c.Dijkstra(limits);
    ghost var t1 := c.View();
    RingStep(t, t1, t1, c.d, c.n, c.root, limits, limits);
    if !ok && count > 20 {
      relaxed := true;
      ok := c.Dijkstra(limits.(failed := true));
      RingStep(t, t1, c.View(), c.d, c.n, c.root, limits, limits.(failed := true));
    }
    if ok { SpansAllowed(c.View(), c.d, c.n, c.root, limits.allowed); }
    a := Attempt(t1, c.View());
    back := DeepCopy(c);
  }

  lemma NoneFails(t: Tree, d: seq<seq<real>>, n: nat, root: nat, c: Limits)
    ensures AllFail(t, [], d, n, root, c)
  {
  }

  /** One or two dijkstra calls on a copy. */
  lemma RingStep(t: Tree, t1: Tree, t2: Tree, d: seq<seq<real>>, n: nat, root: nat, c1: Limits, c2: Limits)
    requires TreeInv(t, d, n, root) && Progress(t, t1, n, root, c1) && (t2 == t1 || Progress(t1, t2, n, root, c2))
    requires c1.allowed == c2.allowed
    ensures Grows(t, t2, n) && t2.inTree <= t.inTree + c1.allowed + {root}
    ensures DepthAtMost(t, 3) ==> DepthAtMost(t2, 3)
    ensures c1.neighbors == c2.neighbors && OnEdges(t, c1.neighbors) ==> OnEdges(t2, c1.neighbors)
  {
    if t2 != t1 { GrowsTrans(t, t1, t2, n); }
    if c1.neighbors == c2.neighbors && OnEdges(t, c1.neighbors) {
      StaysOnEdges(t, t1, n, root, c1);
      if t2 != t1 { StaysOnEdges(t1, t2, n, root, c2); }
    }
  }

  lemma SpansAllowed(t: Tree, d: seq<seq<real>>, n: nat, root: nat, allowed: set<nat>)
    requires TreeInv(t, d, n, root) && root in t.visited && allowed <= Below(n)
    requires forall x: nat :: x < n && x in allowed ==> t.distance[x] < UNREACHED
    ensures allowed <= t.inTree
  {
    forall x | x in allowed ensures x in t.inTree {
      ReachedIsAttached(t, d, n, root, x);
    }
  }

  /** A second tree; relaxed if it was found in failed mode. */
  datatype Second = Second(root: nat, tree: Tree, relaxed: bool)

  /** The second tree is a tree over the same nodes whose inner nodes are leaves of the first; its
      depth is at most 2, or 3 in failed mode. */
  ghost predicate Complements(t: Tree, s: Second, d: seq<seq<real>>, n: nat) {
    && (forall x: nat :: x in t.inTree ==> x < |t.children|)
    && TreeInv(s.tree, d, n, s.root) && s.tree.inTree == t.inTree && s.root !in t.Inner()
    && t.Inner() !! s.tree.Inner()
    && DepthAtMost(s.tree, if s.relaxed then 3 else 2)
  }

  /** Random leaves of the first tree are tried as roots; picks bounds the number of draws. */
  method SecondTree(b: Builder, neighbors: seq<set<nat>>, allowed: set<nat>, radius: real, picks: nat)
    returns (s: Option<Second>)
    requires b.Valid() && |neighbors| == b.n && Names(neighbors, b.n) && b.inTree == allowed != {}
    ensures s.Some? ==> Complements(b.View(), s.value, b.d, b.n) && OnEdges(s.value.tree, neighbors)
    ensures s.None? ==> CannotDouble(b.View(), picks, b.d, b.n, b.root, neighbors, radius)
    ensures s.Some? ==> AfterDraws(b.View(), s.value.relaxed, b.d, b.n, b.root, neighbors, radius)
  {
    hide OnEdges, TreeInv, DrawsFail, DrawFails, Complements;
    ghost var draws: seq<nat> := [];
    NoDraws(b.View(), b.d, b.n, b.root, neighbors, radius);
    var inner, failed, repeats := b.View().Inner(), false, 0;
    while repeats < picks
      invariant |draws| == repeats <= picks && DrawsFail(b.View(), draws, b.d, b.n, b.root, neighbors, radius)
      invariant failed ==> repeats > 10
    {
      var next :| next in b.inTree;
      var tried := next != b.root && next !in inner;
      if tried {
        if repeats > 10 {
          failed := true;
        }
        s := TryDouble(b, neighbors, radius, next, failed);
        if s.Some? {
          assert |draws| > 10 <==> failed;
          return;
        }
      } else {
        NotTried(b.View(), next, b.d, b.n, b.root, neighbors, radius, repeats > 10);
      }
      OneMoreDraw(b.View(), draws, next, b.d, b.n, b.root, neighbors, radius);
      draws := draws + [next];
      if tried && repeats > 20 {
        return None;
      }
      repeats := repeats + 1;
    }
    return None;
  }

  /** One call from scratch with a leaf of the first tree as root. */
  method TryDouble(b: Builder, neighbors: seq<set<nat>>, radius: real, next: nat, failed: bool)
    returns (s: Option<Second>)
    requires b.Valid() && |neighbors| == b.n && Names(neighbors, b.n) && next in b.inTree && next != b.root
    requires (forall x: nat :: x in b.inTree ==> x < |b.children|) && next !in b.View().Inner()
    ensures s.Some? ==> Complements(b.View(), s.value, b.d, b.n) && OnEdges(s.value.tree, neighbors)
    ensures s.Some? ==> s.value.relaxed == failed
    ensures s.None? ==> DrawFails(b.View(), next, b.d, b.n, b.root, neighbors, radius, failed)
  {
    hide OnEdges, DepthAtMost, Served, GoesThrough, ShortEdges, Small, HangsOk, ListOk, Outcome, FellShort, Progress;
    var b2 := new Builder(b.n, next, b.d);
    var limits := Limits(neighbors, b.inTree, b.View().Inner(), false, radius, failed);
    var ok := b2.Dijkstra(limits);
    if ok {
      SecondOk(b.View(), b.root, b2.View(), b.d, b.n, next, limits);
      FreshOnEdges(b.n, next, neighbors);
      StaysOnEdges(FreshTree(b.n, next), b2.View(), b.n, next, limits);
      return Some(Second(next, b2.View(), failed));
    }
    assert CallFails(b.View(), b2.View(), next, b.d, b.n, neighbors, radius, failed);
    return None;
  }

  lemma NotTried(t: Tree, next: nat, d: seq<seq<real>>, n: nat, root: nat, neighbors: seq<set<nat>>, radius: real,
                 failed: bool)
    requires (forall x: nat :: x in t.inTree ==> x < |t.children|) && next in t.inTree
    requires next == root || next in t.Inner()
    ensures DrawFails(t, next, d, n, root, neighbors, radius, failed)
  {
  }

  /** A draw leads to no second tree: the root, an inner node, or a leaf from which a call fell short. */
  ghost predicate DrawFails(t: Tree, next: nat, d: seq<seq<real>>, n: nat, root: nat, neighbors: seq<set<nat>>,
                            radius: real, failed: bool)
    requires forall x: nat :: x in t.inTree ==> x < |t.children|
  {
    next in t.inTree &&
    (next == root || next in t.Inner() ||
     (next < n && exists f: Tree :: CallFails(t, f, next, d, n, neighbors, radius, failed)))
  }

  ghost predicate CallFails(t: Tree, f: Tree, next: nat, d: seq<seq<real>>, n: nat, neighbors: seq<set<nat>>,
                            radius: real, failed: bool)
    requires next < n && forall x: nat :: x in t.inTree ==> x < |t.children|
  {
    var c := Limits(neighbors, t.inTree, t.Inner(), false, radius, failed);
    Outcome(FreshTree(n, next), f, d, n, next, c) && FellShort(f, n, c)
  }

  /** None of the draws leads to a second tree; from the twelfth on they are made in failed mode. */
  ghost predicate DrawsFail(t: Tree, draws: seq<nat>, d: seq<seq<real>>, n: nat, root: nat, neighbors: seq<set<nat>>,
                            radius: real) {
    && (forall x: nat :: x in t.inTree ==> x < |t.children|)
    && forall i :: 0 <= i < |draws| ==> DrawFails(t, draws[i], d, n, root, neighbors, radius, i > 10)
  }

  /** So many draws, or more than twenty-one, have led to no second tree. */
  ghost predicate CannotDouble(t: Tree, picks: nat, d: seq<seq<real>>, n: nat, root: nat, neighbors: seq<set<nat>>,
                               radius: real) {
    exists draws :: (|draws| == picks || |draws| > 21) && DrawsFail(t, draws, d, n, root, neighbors, radius)
  }

  /** Draws that failed have come before; failed mode is entered after more than ten of them. */
  ghost predicate AfterDraws(t: Tree, relaxed: bool, d: seq<seq<real>>, n: nat, root: nat, neighbors: seq<set<nat>>,
                             radius: real) {
    exists draws :: (relaxed <==> |draws| > 10) && DrawsFail(t, draws, d, n, root, neighbors, radius)
  }

  lemma NoDraws(t: Tree, d: seq<seq<real>>, n: nat, root: nat, neighbors: seq<set<nat>>, radius: real)
    requires TreeInv(t, d, n, root)
    ensures DrawsFail(t, [], d, n, root, neighbors, radius)
  {
  }

  lemma OneMoreDraw(t: Tree, draws: seq<nat>, next: nat, d: seq<seq<real>>, n: nat, root: nat, neighbors: seq<set<nat>>,
                    radius: real)
    requires DrawsFail(t, draws, d, n, root, neighbors, radius)
    requires (forall x: nat :: x in t.inTree ==> x < |t.children|)
    requires DrawFails(t, next, d, n, root, neighbors, radius, |draws| > 10)
    ensures DrawsFail(t, draws + [next], d, n, root, neighbors, radius)
  {
    hide DrawFails;
  }

  lemma SecondOk(t: Tree, root: nat, t2: Tree, d: seq<seq<real>>, n: nat, next: nat, c: Limits)
    requires TreeInv(t, d, n, root) && next in t.inTree && next !in t.Inner()
    requires c.allowed == t.inTree && c.forcedLeafs == t.Inner() && !c.buildLeafs
    requires TreeInv(t2, d, n, next) && next in t2.visited && Progress(FreshTree(n, next), t2, n, next, c)
    requires forall x: nat :: x < n && x in c.allowed ==> t2.distance[x] < UNREACHED
    ensures Complements(t, Second(next, t2, c.failed), d, n)
  {
    SpansAllowed(t2, d, n, next, t.inTree);
    assert t2.inTree <= {} + t.inTree + {next};
    assert DepthAtMost(FreshTree(n, next), c.MaxDepth());
    forall x | x in t2.Inner() ensures x !in t.Inner() {
      assert t2.children[x] != [] && FreshTree(n, next).children[x] == [];
    }
  }

  datatype Ring = Ring(radius: real, first: Tree, second: Option<Second>)

  /** A ring's trees: the first spans exactly the nodes within the radius; the second, if any, is
      its complement. */
  ghost predicate RingOk(ring: Ring, dist2: seq<seq<Dist>>, d: seq<seq<real>>, n: nat, root: nat) {
    && Square(dist2, n) && root < n
    && TreeInv(ring.first, d, n, root) && DepthAtMost(ring.first, 3)
    && ring.first.inTree == Allowed(dist2, n, root, ring.radius) && |ring.first.inTree| >= 2
    && (ring.second.Some? ==> Complements(ring.first, ring.second.value, d, n))
  }

  /** A later ring's tree contains the visited part of an earlier one unchanged and more nodes. */
  ghost predicate Nested(a: Ring, b: Ring, n: nat) {
    Grows(a.first, b.first, n) && |a.first.inTree| < |b.first.inTree|
  }

  ghost predicate RingsOk(rings: seq<Ring>, dist2: seq<seq<Dist>>, d: seq<seq<real>>, n: nat, root: nat) {
    && (forall i :: 0 <= i < |rings| ==> RingOk(rings[i], dist2, d, n, root))
    && (forall i, j :: 0 <= i < j < |rings| ==> Nested(rings[i], rings[j], n))
  }

  /** Whether the last recorded ring is the latest stage of the growing tree. */
  ghost predicate UpToDate(rings: seq<Ring>, t: Tree, n: nat, previous: nat) {
    && (rings == [] ==> previous == 0)
    && (rings != [] ==> previous == |rings[|rings| - 1].first.inTree|)
    && (forall i :: 0 <= i < |rings| ==> Grows(rings[i].first, t, n) && |rings[i].first.inTree| <= previous)
  }

  /** All rings of a root.  attempts and picks bound the two retry loops, which need not end;
      whatever has been built when one of them is given up satisfies the promise. */
  method CreateOnetRings(n: nat, root: nat, d: seq<seq<real>>, dist2: seq<seq<Dist>>, neighbors: seq<set<nat>>,
                         attempts: nat, picks: nat)
    returns (rings: seq<Ring>, complete: bool)
    requires root < n && Square(d, n) && Square(dist2, n) && dist2[root][root] == Fin(0.0)
    requires |neighbors| == n && Names(neighbors, n)
    ensures RingsOk(rings, dist2, d, n, root)
    ensures complete ==> Covers(rings, dist2, n, root, |RADIUSES|)
    // tree links are edges; a ring of more than two nodes has a second tree unless the draws failed, and
    // the first tree of a radius is given up only after so many failures
    ensures AllTried(rings, picks, d, n, root, neighbors)
    ensures !complete ==> exists k: nat, t: Tree :: GaveUp(k, t, attempts, dist2, d, n, root, neighbors)
  {
    hide CannotGrow, CannotDouble, AfterDraws, AllTried, GaveUp, OnEdges, TreeInv, Grows, Complements, Progress;
    hide RingsOk, UpToDate, HasRing, Covers, Allowed, AllowedBefore;
    var b := new Builder(n, root, d);
    rings, complete := [], false;
    NoRings(b.View(), dist2, d, n, root);
    FreshOnEdges(n, root, neighbors);
    NoneTried(picks, d, n, root, neighbors);
    assert b.inTree == {};
    var previous: nat := 0;
    for countt := 0 to |RADIUSES|
      invariant fresh(b) && b.n == n && b.root == root && b.d == d && b.Valid() && DepthAtMost(b.View(), 3)
      invariant RingsOk(rings, dist2, d, n, root) && UpToDate(rings, b.View(), n, previous)
      invariant Covers(rings, dist2, n, root, countt)
      invariant b.inTree <= AllowedBefore(dist2, n, root, countt)
      invariant OnEdges(b.View(), neighbors) && AllTried(rings, picks, d, n, root, neighbors)
    {
      var allowed := Allowed(dist2, n, root, RADIUSES[countt]);
      AllowedGrows(dist2, n, root, countt);
      ghost var t := b.View();
      var done := FirstTree(b, neighbors, allowed, RADIUSES[countt], attempts);
      if !done {
        HasGivenUp(countt, t, attempts, dist2, d, n, root, neighbors);
        return;
      }
      assert b.inTree == allowed;
      StaysUpToDate(rings, t, b.View(), d, n, root, previous);
      var size := |b.inTree|;
      if size == previous || size < 2 {
        SameAsBefore(rings, b.View(), n, previous);
        CoversOne(rings, rings, dist2, n, root, countt);
        continue;
      }
      var second := None;
      if size > 2 {
        second := SecondTree(b, neighbors, allowed, RADIUSES[countt], picks);
      }
      AddsRing(rings, Ring(RADIUSES[countt], b.View(), second), dist2, d, n, root, previous);
      CoversOne(rings, rings + [Ring(RADIUSES[countt], b.View(), second)], dist2, n, root, countt);
      TriesOne(rings, Ring(RADIUSES[countt], b.View(), second), picks, d, n, root, neighbors);
      rings := rings + [Ring(RADIUSES[countt], b.View(), second)];
      previous := size;
    }
    complete := true;
  }

  ghost predicate RingTried(ring: Ring, picks: nat, d: seq<seq<real>>, n: nat, root: nat, neighbors: seq<set<nat>>) {
    |ring.first.inTree| > 2 ==>
      match ring.second
      case None => CannotDouble(ring.first, picks, d, n, root, neighbors, ring.radius)
      case Some(s) => AfterDraws(ring.first, s.relaxed, d, n, root, neighbors, ring.radius)
  }

  /** The first tree for the k-th radius could not be grown out of t. */
  ghost predicate GaveUp(k: nat, t: Tree, attempts: nat, dist2: seq<seq<Dist>>, d: seq<seq<real>>, n: nat, root: nat,
                         neighbors: seq<set<nat>>) {
    k < |RADIUSES| && Square(dist2, n) && root < n &&
    CannotGrow(t, attempts, d, n, root,
               Limits(neighbors, Allowed(dist2, n, root, RADIUSES[k]), {}, true, RADIUSES[k], false))
  }

  ghost predicate RingOnEdges(ring: Ring, neighbors: seq<set<nat>>) {
    OnEdges(ring.first, neighbors) && (ring.second.Some? ==> OnEdges(ring.second.value.tree, neighbors))
  }

  ghost predicate AllTried(rings: seq<Ring>, picks: nat, d: seq<seq<real>>, n: nat, root: nat,
                           neighbors: seq<set<nat>>) {
    forall i :: 0 <= i < |rings| ==>
      RingOnEdges(rings[i], neighbors) && RingTried(rings[i], picks, d, n, root, neighbors)
  }

  lemma NoneTried(picks: nat, d: seq<seq<real>>, n: nat, root: nat, neighbors: seq<set<nat>>)
    ensures AllTried([], picks, d, n, root, neighbors)
  {
  }

  lemma TriesOne(rings: seq<Ring>, ring: Ring, picks: nat, d: seq<seq<real>>, n: nat, root: nat,
                 neighbors: seq<set<nat>>)
    requires AllTried(rings, picks, d, n, root, neighbors) && OnEdges(ring.first, neighbors)
    requires ring.second.Some? ==> OnEdges(ring.second.value.tree, neighbors)
    requires |ring.first.inTree| > 2 && ring.second.None? ==>
               CannotDouble(ring.first, picks, d, n, root, neighbors, ring.radius)
    requires ring.second.Some? ==> AfterDraws(ring.first, ring.second.value.relaxed, d, n, root, neighbors, ring.radius)
    ensures AllTried(rings + [ring], picks, d, n, root, neighbors)
  {
    hide OnEdges, CannotDouble, AfterDraws;
  }

  lemma HasGivenUp(k: nat, t: Tree, attempts: nat, dist2: seq<seq<Dist>>, d: seq<seq<real>>, n: nat, root: nat,
                   neighbors: seq<set<nat>>)
    requires k < |RADIUSES| && Square(dist2, n) && root < n
    requires CannotGrow(t, attempts, d, n, root,
                        Limits(neighbors, Allowed(dist2, n, root, RADIUSES[k]), {}, true, RADIUSES[k], false))
    ensures GaveUp(k, t, attempts, dist2, d, n, root, neighbors)
  {
  }

  lemma FreshOnEdges(n: nat, root: nat, neighbors: seq<set<nat>>)
    requires root < n
    ensures OnEdges(FreshTree(n, root), neighbors)
  {
  }

  /** A node set of two or more is the node set of some ring. */
  ghost predicate HasRing(rings: seq<Ring>, nodes: set<nat>) {
    |nodes| >= 2 ==> exists i :: 0 <= i < |rings| && rings[i].first.inTree == nodes
  }

  /** For each of the first k radii there is a ring over the nodes within that radius. */
  ghost predicate Covers(rings: seq<Ring>, dist2: seq<seq<Dist>>, n: nat, root: nat, k: nat) {
    Square(dist2, n) && root < n && forall i :: 0 <= i < k && i < |RADIUSES| ==>
        HasRing(rings, Allowed(dist2, n, root, RADIUSES[i]))
  }

  lemma CoversOne(rings: seq<Ring>, rings': seq<Ring>, dist2: seq<seq<Dist>>, n: nat, root: nat, k: nat)
    requires Covers(rings, dist2, n, root, k) && k < |RADIUSES| && HasRing(rings', Allowed(dist2, n, root, RADIUSES[k]))
    requires forall s :: HasRing(rings, s) ==> HasRing(rings', s)
    ensures Covers(rings', dist2, n, root, k + 1)
  {
    hide HasRing, Allowed;
    forall i | 0 <= i < k + 1 && i < |RADIUSES| ensures HasRing(rings', Allowed(dist2, n, root, RADIUSES[i])) {
      if i < k {
        assert HasRing(rings, Allowed(dist2, n, root, RADIUSES[i]));
      }
    }
  }

  /** A radius is skipped only if it brings no new node, or there are not two nodes yet. */
  lemma SameAsBefore(rings: seq<Ring>, t: Tree, n: nat, previous: nat)
    requires UpToDate(rings, t, n, previous) && (|t.inTree| == previous || |t.inTree| < 2)
    ensures HasRing(rings, t.inTree)
  {
    if |t.inTree| >= 2 {
      SubsetCard(rings[|rings| - 1].first.inTree, t.inTree);
    }
  }

  lemma NoRings(t: Tree, dist2: seq<seq<Dist>>, d: seq<seq<real>>, n: nat, root: nat)
    requires Square(dist2, n) && root < n
    ensures RingsOk([], dist2, d, n, root) && UpToDate([], t, n, 0) && Covers([], dist2, n, root, 0)
  {
  }

  lemma StaysUpToDate(rings: seq<Ring>, t: Tree, t': Tree, d: seq<seq<real>>, n: nat, root: nat, previous: nat)
    requires UpToDate(rings, t, n, previous) && Grows(t, t', n) && TreeInv(t', d, n, root)
    ensures UpToDate(rings, t', n, previous)
    ensures previous <= |t'.inTree| && Grows(t', t', n)
  {
    forall i | 0 <= i < |rings| ensures Grows(rings[i].first, t', n) {
      GrowsTrans(rings[i].first, t, t', n);
    }
    if rings != [] {
      SubsetCard(rings[|rings| - 1].first.inTree, t'.inTree);
    }
  }

  lemma AddsRing(rings: seq<Ring>, ring: Ring, dist2: seq<seq<Dist>>, d: seq<seq<real>>, n: nat, root: nat,
                 previous: nat)
    requires RingsOk(rings, dist2, d, n, root) && RingOk(ring, dist2, d, n, root)
    requires UpToDate(rings, ring.first, n, previous) && previous < |ring.first.inTree|
    requires Grows(ring.first, ring.first, n)
    ensures RingsOk(rings + [ring], dist2, d, n, root)
    ensures UpToDate(rings + [ring], ring.first, n, |ring.first.inTree|)
    ensures HasRing(rings + [ring], ring.first.inTree)
    ensures forall s :: HasRing(rings, s) ==> HasRing(rings + [ring], s)
  {
    assert (rings + [ring])[|rings|] == ring;
    forall s | HasRing(rings, s) ensures HasRing(rings + [ring], s) {
      if |s| >= 2 {
        var i :| 0 <= i < |rings| && rings[i].first.inTree == s;
        assert (rings + [ring])[i].first.inTree == s;
      }
    }
  }

  /** What a ring holds in terms of distances: with a matrix that never underestimates only nodes within
      the radius, and with one that stays within a factor k every node within a k-th of it. */
  lemma RingHolds(ring: Ring, dist2: seq<seq<Dist>>, d: seq<seq<real>>, n: nat, root: nat, k: nat)
    requires RingOk(ring, dist2, d, n, root) && Metric(d, n) && Square(d, n)
    requires forall u: nat, v: nat :: u < n && v < n && dist2[u][v].Fin? ==> d[u][v] <= dist2[u][v].v
    ensures forall x: nat :: x in ring.first.inTree ==> x < n && d[root][x] <= ring.radius
    ensures forall x: nat :: x < n ==>
              (x in ring.first.inTree <==>
               (dist2[root][x].Fin? && dist2[root][x].v <= ring.radius) ||
               (dist2[x][root].Fin? && dist2[x][root].v <= ring.radius))
    ensures (forall u: nat, v: nat :: u < n && v < n ==> dist2[u][v].Fin? && dist2[u][v].v <= Times(k, d[u][v])) ==>
              forall x: nat :: x < n && Times(k, d[root][x]) <= ring.radius ==> x in ring.first.inTree
  {
    hide TreeInv, Times, Metric;
    forall x: nat | x in ring.first.inTree ensures x < n && d[root][x] <= ring.radius {
      assert x in Below(n);
      Triangle(d, n, root, x, root);
    }
    if forall u: nat, v: nat :: u < n && v < n ==> dist2[u][v].Fin? && dist2[u][v].v <= Times(k, d[u][v]) {
      forall x: nat | x < n && Times(k, d[root][x]) <= ring.radius ensures x in ring.first.inTree {
        assert dist2[root][x].LessEq(Fin(ring.radius));
      }
    }
  }

  /** In every ring that got a second tree, after deleting any one node one of the two trees still
      joins all the others. */
  lemma RingSurvives(ring: Ring, dist2: seq<seq<Dist>>, d: seq<seq<real>>, n: nat, root: nat, gone: nat)
    requires RingOk(ring, dist2, d, n, root) && ring.second.Some?
    ensures var rest := Allowed(dist2, n, root, ring.radius) - {gone};
            AllJoined(ring.first, n, rest) || AllJoined(ring.second.value.tree, n, rest)
  {
    OneFailureTolerated(ring.first, root, ring.second.value.tree, ring.second.value.root, d, n, gone);
  }
}
