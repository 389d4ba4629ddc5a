/**
 When GetBridges returns all the bridges.  The marks depend on the node discovered last, and so on the
 order in which the maps yield the children; these theorems decide the question for every order and
 for some order, by conditions on the graph and the root alone.
 */
module BridgeOrders {
  import opened Sets
  import opened Walks
  import opened Discovery
  import opened Bridges

  /** What GetBridges marks when last is discovered last includes every bridge of the graph. */
  ghost predicate AllMarked(adj: seq<set<nat>>, root: nat, last: nat) {
    forall x: nat, y: nat :: IsBridge(adj, Below(|adj|), x, y) ==> Separates(adj, root, last, x, y)
  }

  /** Searching with this order returns all the bridges. */
  ghost predicate ReturnsAll(adj: seq<set<nat>>, order: seq<seq<nat>>, root: nat)
    requires Usable(adj, order, root)
  {
    AllMarked(adj, root, Last(order, root))
  }

  // ---------------------------------------------------------------- corridors

  /** p leads from the root over (x, y); the root has one neighbour, every node up to x two. */
  ghost predicate IsCorridor(adj: seq<set<nat>>, p: seq<nat>, root: nat, x: nat, y: nat) {
    && |p| >= 2 && p[0] == root && p[|p| - 2] == x && p[|p| - 1] == y && Distinct(p)
    && (forall i :: 0 <= i < |p| ==> p[i] < |adj|)
    && (forall i :: 0 <= i < |p| - 1 ==> Narrow(adj, p, i))
  }

  /** The only neighbours of the i-th node of p are those next to it on p. */
  ghost predicate Narrow(adj: seq<set<nat>>, p: seq<nat>, i: nat)
    requires i + 1 < |p|
  {
    p[i] < |adj| && adj[p[i]] == if i == 0 then {p[1]} else {p[i - 1], p[i + 1]}
  }

  ghost predicate Corridor(adj: seq<set<nat>>, root: nat, x: nat, y: nat) {
    exists p :: IsCorridor(adj, p, root, x, y)
  }

  /** The first i + 1 nodes of a corridor are left only by the next step. */
  lemma CorridorExit(adj: seq<set<nat>>, p: seq<nat>, root: nat, x: nat, y: nat, i: nat)
    requires IsCorridor(adj, p, root, x, y) && i < |p| - 1
    ensures OnlyExit(adj, Elems(p[..i + 1]), p[i], p[i + 1])
    ensures p[i] in Elems(p[..i + 1]) && p[i + 1] !in Elems(p[..i + 1]) && root in Elems(p[..i + 1])
  {
    var q := p[..i + 1];
    assert forall k :: 0 <= k <= i ==> q[k] == p[k] && p[k] in Elems(q);
    forall a: nat, b: nat | a < |adj| && b in adj[a] && a in Elems(q) && b !in Elems(q)
      ensures SameEdge(a, b, p[i], p[i + 1])
    {
      var j :| 0 <= j < |q| && q[j] == a;
      assert Narrow(adj, p, j);
    }
  }

  /** Whatever lies outside S is discovered after the inner end of the only exit of S. */
  lemma {:induction false} EntersByExit(adj: seq<set<nat>>, s: seq<nat>, S: set<nat>, a: nat, b: nat, t: nat)
    requires LinkedFrom(adj, s, 1) && t < |s| && s[0] in S && s[t] !in S && OnlyExit(adj, S, a, b) && a in S && b !in S
    ensures exists j :: 0 <= j < t && s[j] == a
  {
    assert t > 0;
    assert HasEarlier(adj, s, t);
    var j :| 0 <= j < t < |s| && s[j] < |adj| && s[t] in adj[s[j]];
    if s[j] !in S { EntersByExit(adj, s, S, a, b, j); }
  }

  /** The node discovered last lies behind every corridor. */
  lemma LastBehindCorridor(adj: seq<set<nat>>, order: seq<seq<nat>>, root: nat, x: nat, y: nat, p: seq<nat>)
    requires Usable(adj, order, root) && IsCorridor(adj, p, root, x, y)
    ensures Last(order, root) !in Elems(p[..|p| - 1])
  {
    var s := Found(order, root);
    FoundFacts(adj, order, root);
    if Last(order, root) in Elems(p[..|p| - 1]) {
      var i :| 0 <= i < |p| - 1 && p[..|p| - 1][i] == s[|s| - 1];
      CorridorReached(adj, p, root, x, y, i + 1);
      var t :| 0 <= t < |s| && s[t] == p[i + 1];
      CorridorExit(adj, p, root, x, y, i);
      EntersByExit(adj, s, Elems(p[..i + 1]), p[i], p[i + 1], t);
      assert false;
    }
  }

  lemma {:induction false} CorridorReached(adj: seq<set<nat>>, p: seq<nat>, root: nat, x: nat, y: nat, i: nat)
    requires IsCorridor(adj, p, root, x, y) && i < |p|
    ensures Reach(adj, Below(|adj|), root, p[i])
  {
    if i == 0 {
      ReachSelf(adj, Below(|adj|), root);
    } else {
      CorridorReached(adj, p, root, x, y, i - 1);
      assert Narrow(adj, p, i - 1);
      ReachEdge(adj, Below(|adj|), p[i - 1], p[i]);
      ReachTrans(adj, Below(|adj|), root, p[i - 1], p[i]);
    }
  }

  /** A bridge at the end of a corridor is marked for every order. */
  lemma CorridorMarked(adj: seq<set<nat>>, order: seq<seq<nat>>, root: nat, x: nat, y: nat)
    requires Usable(adj, order, root) && Corridor(adj, root, x, y)
    ensures Separates(adj, root, Last(order, root), x, y) && Separates(adj, root, Last(order, root), y, x)
  {
    var p :| IsCorridor(adj, p, root, x, y);
    var S, last := Elems(p[..|p| - 1]), Last(order, root);
    LastBehindCorridor(adj, order, root, x, y, p);
    CorridorExit(adj, p, root, x, y, |p| - 2);
    assert Narrow(adj, p, |p| - 2);
    NoWalkAcross(adj, Below(|adj|), S, root, last, x, y);
    assert OnlyExit(adj, S, y, x);
    NoWalkAcross(adj, Below(|adj|), S, root, last, y, x);
  }

  // ---------------------------------------------------------------- shortest walks

  ghost predicate ShortestWalk(adj: seq<set<nat>>, V: set<nat>, p: seq<nat>, u: nat, v: nat) {
    Walk(adj, V, p, u, v) && forall q :: Walk(adj, V, q, u, v) ==> |p| <= |q|
  }

  lemma {:induction false} ShortestExists(adj: seq<set<nat>>, V: set<nat>, p: seq<nat>, u: nat, v: nat)
    requires Walk(adj, V, p, u, v)
    ensures exists q :: ShortestWalk(adj, V, q, u, v)
    decreases |p|
  {
    if !ShortestWalk(adj, V, p, u, v) {
      var q :| Walk(adj, V, q, u, v) && |q| < |p|;
      ShortestExists(adj, V, q, u, v);
    }
  }

  /** Leaving out the part between i and j, when the j-th node follows the i-th or is the same. */
  lemma Shortcut(adj: seq<set<nat>>, V: set<nat>, p: seq<nat>, u: nat, v: nat, i: nat, j: nat)
    requires Walk(adj, V, p, u, v) && i < j < |p| && p[j] in adj[p[i]]
    ensures Walk(adj, V, p[..i + 1] + p[j..], u, v)
  {
    var q := p[..i + 1] + p[j..];
    forall k | 0 <= k < |q| - 1 ensures Step(adj, q, k) {
      if k < i { assert Step(adj, p, k); } else if k > i { assert Step(adj, p, k - i - 1 + j); }
    }
  }

  /** A shortest walk repeats no node and has no chord. */
  lemma ShortestIsStraight(adj: seq<set<nat>>, V: set<nat>, p: seq<nat>, u: nat, v: nat)
    requires ShortestWalk(adj, V, p, u, v)
    ensures Distinct(p)
    ensures forall i, j :: 0 <= i < |p| && 0 <= j < |p| && i + 1 < j ==> p[j] !in adj[p[i]]
  {
    forall i, j | 0 <= i < |p| && 0 <= j < |p| && i + 1 < j ensures p[j] !in adj[p[i]] {
      if p[j] in adj[p[i]] { Shortcut(adj, V, p, u, v, i, j); }
    }
    forall i, j | 0 <= i < j < |p| ensures p[i] != p[j] {
      if i > 0 {
        assert Step(adj, p, i - 1);
      } else if p[0] == p[j] {
        WalkTail(adj, V, p, u, v, j);
      }
    }
  }

  lemma WalkTail(adj: seq<set<nat>>, V: set<nat>, p: seq<nat>, u: nat, v: nat, j: nat)
    requires Walk(adj, V, p, u, v) && j < |p|
    ensures Walk(adj, V, p[j..], p[j], v)
  {
    var q := p[j..];
    forall k | 0 <= k < |q| - 1 ensures Step(adj, q, k) { assert Step(adj, p, j + k); }
  }

  // ---------------------------------------------------------------- the root's side of a bridge

  ghost predicate OnSide(adj: seq<set<nat>>, root: nat, x: nat, y: nat, v: nat) {
    ReachAvoiding(adj, Below(|adj|), root, v, x, y)
  }

  /** What the root reaches without the edge {x, y}. */
  ghost function Side(adj: seq<set<nat>>, root: nat, x: nat, y: nat): set<nat> {
    set v | v in Below(|adj|) && OnSide(adj, root, x, y, v)
  }

  /** A walk whose last step is not the edge stays on the side if it was there before. */
  lemma SideGrows(adj: seq<set<nat>>, root: nat, x: nat, y: nat, a: nat, b: nat)
    requires Undirected(adj) && a in Side(adj, root, x, y) && b in adj[a] && !SameEdge(a, b, x, y)
    ensures b in Side(adj, root, x, y)
  {
    ReachEdge(adj, Below(|adj|), a, b);
    AvoidTrans(adj, Below(|adj|), root, a, b, x, y);
  }

  lemma SideExit(adj: seq<set<nat>>, root: nat, x: nat, y: nat)
    requires Undirected(adj)
    ensures OnlyExit(adj, Side(adj, root, x, y), x, y)
  {
    forall a: nat, b: nat | a < |adj| && b in adj[a] && a in Side(adj, root, x, y) && b !in Side(adj, root, x, y)
      ensures SameEdge(a, b, x, y)
    {
      if !SameEdge(a, b, x, y) { SideGrows(adj, root, x, y, a, b); }
    }
  }

  /** Whatever the root reaches is on its side, or one end of the edge is. */
  lemma {:induction false} ReachesAnEnd(adj: seq<set<nat>>, root: nat, x: nat, y: nat, p: seq<nat>, v: nat)
    requires Undirected(adj) && root < |adj| && Walk(adj, Below(|adj|), p, root, v)
    ensures v in Side(adj, root, x, y) || x in Side(adj, root, x, y) || y in Side(adj, root, x, y)
    decreases |p|
  {
    if |p| == 1 {
      ReachSelf(adj, Below(|adj|), root);
    } else {
      var q, u := p[..|p| - 1], p[|p| - 2];
      forall i | 0 <= i < |q| - 1 ensures Step(adj, q, i) { assert Step(adj, p, i); }
      ReachesAnEnd(adj, root, x, y, q, u);
      assert Step(adj, p, |p| - 2);
      if u in Side(adj, root, x, y) && !SameEdge(u, v, x, y) { SideGrows(adj, root, x, y, u, v); }
    }
  }

  /** A bridge that the root reaches has exactly one end on the root's side. */
  lemma OneEndOnSide(adj: seq<set<nat>>, root: nat, x: nat, y: nat)
    requires Undirected(adj) && root < |adj| && IsBridge(adj, Below(|adj|), x, y) && Reach(adj, Below(|adj|), root, x)
    ensures x in Side(adj, root, x, y) <==> y !in Side(adj, root, x, y)
  {
    var p :| Walk(adj, Below(|adj|), p, root, x);
    ReachesAnEnd(adj, root, x, y, p, x);
    if x in Side(adj, root, x, y) && y in Side(adj, root, x, y) {
      AvoidSym(adj, Below(|adj|), root, x, x, y);
      AvoidTrans(adj, Below(|adj|), x, root, y, x, y);
    }
  }

  /** The root reaches every node of its side without leaving it. */
  lemma {:induction false} WithinSide(adj: seq<set<nat>>, root: nat, x: nat, y: nat, p: seq<nat>, v: nat)
    requires Undirected(adj) && root < |adj| && Walk(adj, Below(|adj|), p, root, v) && Avoids(p, x, y)
    ensures Reach(adj, Side(adj, root, x, y), root, v)
    decreases |p|
  {
    var S := Side(adj, root, x, y);
    if |p| == 1 {
      ReachSelf(adj, Below(|adj|), root);
      ReachSelf(adj, S, root);
    } else {
      var q, u := p[..|p| - 1], p[|p| - 2];
      forall i | 0 <= i < |q| - 1 ensures Step(adj, q, i) { assert Step(adj, p, i); }
      assert Avoids(q, x, y);
      WithinSide(adj, root, x, y, q, u);
      assert Step(adj, p, |p| - 2);
      ReachEnd(adj, S, root, u);
      assert !SameEdge(p[|p| - 2], p[|p| - 1], x, y);
      SideGrows(adj, root, x, y, u, v);
      ReachEdge(adj, S, u, v);
      ReachTrans(adj, S, root, u, v);
    }
  }

  lemma ReachEnd(adj: seq<set<nat>>, V: set<nat>, u: nat, v: nat)
    requires Reach(adj, V, u, v)
    ensures u in V && v in V && u < |adj| && v < |adj|
  {
    var p :| Walk(adj, V, p, u, v);
  }

  // ---------------------------------------------------------------- an order that follows a path

  ghost function ToSeq(s: set<nat>): (r: seq<nat>)
    ensures Distinct(r) && Elems(r) == s
  {
    if s == {} then [] else
      var x :| x in s;
      var rest := ToSeq(s - {x});
      assert x !in Elems(rest);
      rest + [x]
  }

  /** The neighbours of v, the one after v on q first. */
  ghost function NextFirst(s: set<nat>, q: seq<nat>, v: nat): (r: seq<nat>)
    requires Distinct(q)
    ensures Distinct(r) && Elems(r) == s
    ensures forall i :: 0 <= i < |q| - 1 && q[i] == v && q[i + 1] in s ==> r != [] && r[0] == q[i + 1]
  {
    if i :| 0 <= i < |q| - 1 && q[i] == v && q[i + 1] in s then
      var rest := ToSeq(s - {q[i + 1]});
      assert q[i + 1] !in Elems(rest);
      [q[i + 1]] + rest
    else ToSeq(s)
  }

  ghost function Following(adj: seq<set<nat>>, q: seq<nat>): (order: seq<seq<nat>>)
    requires Distinct(q)
    ensures IsOrder(adj, order)
  {
    var order := seq(|adj|, v requires 0 <= v < |adj| => NextFirst(adj[v], q, v));
    assert forall v: nat, w: nat {:trigger w in order[v]} :: v < |adj| ==> (w in order[v] <==> w in Elems(order[v]));
    order
  }

  ghost predicate Follows(order: seq<seq<nat>>, q: seq<nat>) {
    && Distinct(q) && (forall i :: 0 <= i < |q| ==> q[i] < |order|)
    && (forall i :: 0 <= i < |q| - 1 ==> order[q[i]] != [] && order[q[i]][0] == q[i + 1])
  }

  /** The search runs down q first. */
  lemma {:induction false} RunsDown(order: seq<seq<nat>>, q: seq<nat>, i: nat)
    requires Named(order) && Follows(order, q) && i < |q|
    ensures q[i] !in q[..i] && q[|q| - 1] !in q[..|q| - 1]
    ensures Discover(order, q[|q| - 1], q[..|q| - 1]) <= Discover(order, q[i], q[..i])
    decreases |q| - i
  {
    if i < |q| - 1 {
      RunsDown(order, q, i + 1);
      var down := Discover(order, q[i + 1], q[..i + 1]);
      assert q[..i] + [q[i]] == q[..i + 1];
      assert ScanOne(order, q[i], 0, q[..i + 1]) == down;
      assert Discover(order, q[i], q[..i]) == Scan(order, q[i], 1, down);
    }
  }

  /** Beyond the exit of S a search that has passed the inner end finds exactly the other side. */
  lemma {:induction false} FarSideReached(adj: seq<set<nat>>, S: set<nat>, root: nat, x: nat, y: nat, p: seq<nat>,
                                          v: nat)
    requires Undirected(adj) && root in S && v !in S && OnlyExit(adj, S, x, y) && x in S && y !in S
    requires Walk(adj, Below(|adj|), p, root, v)
    ensures Reach(adj, Below(|adj|) - S, y, v)
    decreases |p|
  {
    var q, u := p[..|p| - 1], p[|p| - 2];
    forall i | 0 <= i < |q| - 1 ensures Step(adj, q, i) { assert Step(adj, p, i); }
    assert Step(adj, p, |p| - 2);
    if u in S {
      ReachSelf(adj, Below(|adj|) - S, y);
    } else {
      FarSideReached(adj, S, root, x, y, q, u);
      ReachEdge(adj, Below(|adj|) - S, u, v);
      ReachTrans(adj, Below(|adj|) - S, y, u, v);
    }
  }

  /** A walk that starts outside S and avoids the inner end of its exit stays outside. */
  lemma {:induction false} StaysOut(adj: seq<set<nat>>, S: set<nat>, x: nat, y: nat, V: set<nat>, p: seq<nat>, v: nat)
    requires Undirected(adj) && OnlyExit(adj, S, x, y) && x in S && y !in S && x !in V && Walk(adj, V, p, y, v)
    ensures v !in S
    decreases |p|
  {
    if |p| > 1 {
      var q, u := p[..|p| - 1], p[|p| - 2];
      forall i | 0 <= i < |q| - 1 ensures Step(adj, q, i) { assert Step(adj, p, i); }
      StaysOut(adj, S, x, y, V, q, u);
      assert Step(adj, p, |p| - 2);
      assert u in adj[v];
    }
  }

  /** The search that has come down p to the bridge and crosses it finds exactly the far side. */
  lemma CrossingFinds(adj: seq<set<nat>>, order: seq<seq<nat>>, S: set<nat>, root: nat, x: nat, y: nat, p: seq<nat>,
                      v: nat)
    requires Usable(adj, order, root) && y < |order| && root in p && x in p && y !in p && v !in p && Elems(p) <= S
    requires y !in S
    requires OnlyExit(adj, S, x, y) && Reach(adj, Below(|adj|), root, v)
    ensures v in Discover(order, y, p) <==> v !in S
  {
    hide Discover, OnlyExit;
    WhitePath(adj, order, y, p, v);
    if v in S && Reach(adj, Unseen(|adj|, p), y, v) {
      var w :| Walk(adj, Unseen(|adj|, p), w, y, v);
      StaysOut(adj, S, x, y, Unseen(|adj|, p), w, v);
    }
    if v !in S {
      var w :| Walk(adj, Below(|adj|), w, root, v);
      FarSideReached(adj, S, root, x, y, w, v);
      ReachMono(adj, Below(|adj|) - S, Unseen(|adj|, p), y, v);
    }
  }

  /** When a path through the root's side to the bridge misses a node of that side, the order that
      follows the path and crosses the bridge discovers a node of the root's side last. */
  lemma LastOnSide(adj: seq<set<nat>>, order: seq<seq<nat>>, S: set<nat>, root: nat, x: nat, y: nat, p: seq<nat>,
                   u: nat)
    requires Usable(adj, order, root) && Follows(order, p + [y]) && p != [] && p[0] == root && p[|p| - 1] == x
    requires OnlyExit(adj, S, x, y) && Elems(p) <= S && y !in S && u in S && u !in p
    requires Reach(adj, Below(|adj|), root, u)
    ensures Last(order, root) in S
  {
    hide Discover, OnlyExit, Reach, IsOrder, Undirected, Named, LinkedFrom;
    var q, r := p + [y], Found(order, root);
    assert q[..|p|] == p && q[..0] == [] && q[|p|] == y;
    RunsDown(order, q, 0);
    var crossed := Discover(order, y, p);
    assert crossed <= r by { FoundIs(order, root); }
    FoundFacts(adj, order, root);
    CrossingFinds(adj, order, S, root, x, y, p, u);
    LastIsNew(crossed, r, u);
    var last := r[|r| - 1];
    if last !in S {
      assert last in r && last !in p;
      CrossingFinds(adj, order, S, root, x, y, p, last);
    }
  }

  lemma FoundIs(order: seq<seq<nat>>, root: nat)
    requires Named(order) && root < |order|
    ensures Found(order, root) == Discover(order, root, [])
  {
  }

  lemma LastIsNew(s: seq<nat>, r: seq<nat>, u: nat)
    requires s <= r && u in r && u !in s && Distinct(r)
    ensures r[|r| - 1] !in s
  {
  }

  // ---------------------------------------------------------------- every order

  /** A side that is no more than a shortest path to the bridge is a corridor. */
  lemma SideIsCorridor(adj: seq<set<nat>>, S: set<nat>, root: nat, x: nat, y: nat, p: seq<nat>)
    requires Undirected(adj) && ShortestWalk(adj, S, p, root, x) && Elems(p) == S
    requires OnlyExit(adj, S, x, y) && y !in S && y < |adj| && y in adj[x]
    ensures Corridor(adj, root, x, y)
  {
    ShortestIsStraight(adj, S, p, root, x);
    var q := p + [y];
    forall i | 0 <= i < |q| - 1 ensures Narrow(adj, q, i) {
      if i > 0 { assert Step(adj, p, i - 1); }
      if i < |p| - 1 { assert Step(adj, p, i); }
      forall b | b in adj[p[i]] ensures (i > 0 && b == q[i - 1]) || b == q[i + 1] {
        if b in S {
          var j :| 0 <= j < |p| && p[j] == b;
          assert p[i] in adj[p[j]];
        }
      }
      assert q[i + 1] in adj[q[i]];
      if i > 0 { assert q[i - 1] in adj[q[i]]; }
    }
    assert IsCorridor(adj, q, root, x, y);
  }

  lemma FollowingFollows(adj: seq<set<nat>>, S: set<nat>, root: nat, x: nat, y: nat, p: seq<nat>)
    requires Undirected(adj) && Walk(adj, S, p, root, x) && Distinct(p) && y !in p && y in adj[x]
    ensures Distinct(p + [y]) && Follows(Following(adj, p + [y]), p + [y])
  {
    var q := p + [y];
    forall i | 0 <= i < |q| - 1
      ensures q[i] < |adj| && Following(adj, q)[q[i]] != [] && Following(adj, q)[q[i]][0] == q[i + 1]
    {
      if i < |p| - 1 { assert Step(adj, p, i); }
      assert q[i + 1] in adj[q[i]];
      assert Following(adj, q)[q[i]] == NextFirst(adj[q[i]], q, q[i]);
    }
  }

  /** A bridge with the root's side no corridor: some order discovers a node of that side last. */
  lemma MissedFromSide(adj: seq<set<nat>>, root: nat, x: nat, y: nat)
    requires Undirected(adj) && root < |adj| && x < |adj| && y in adj[x] && !Corridor(adj, root, x, y)
    requires x in Side(adj, root, x, y) && y !in Side(adj, root, x, y)
    ensures exists order :: Usable(adj, order, root) && Last(order, root) in Side(adj, root, x, y)
  {
    hide Corridor, OnlyExit, Last, IsOrder;
    var S := Side(adj, root, x, y);
    SideExit(adj, root, x, y);
    var w :| Walk(adj, Below(|adj|), w, root, x) && Avoids(w, x, y);
    WithinSide(adj, root, x, y, w, x);
    var v :| Walk(adj, S, v, root, x);
    ShortestExists(adj, S, v, root, x);
    var p :| ShortestWalk(adj, S, p, root, x);
    assert Elems(p) <= S;
    if Elems(p) == S {
      SideIsCorridor(adj, S, root, x, y, p);
    } else {
      var u :| u in S && u !in p;
      ShortestIsStraight(adj, S, p, root, x);
      FollowingFollows(adj, S, root, x, y, p);
      var order := Following(adj, p + [y]);
      OrderNamed(adj, order);
      SideReached(adj, root, x, y, u);
      LastOnSide(adj, order, S, root, x, y, p, u);
    }
  }

  lemma SideReached(adj: seq<set<nat>>, root: nat, x: nat, y: nat, u: nat)
    requires u in Side(adj, root, x, y)
    ensures Reach(adj, Below(|adj|), root, u)
  {
  }

  lemma SameSide(adj: seq<set<nat>>, root: nat, x: nat, y: nat)
    ensures Side(adj, root, x, y) == Side(adj, root, y, x)
  {
    forall v | v in Below(|adj|) ensures OnSide(adj, root, x, y, v) <==> OnSide(adj, root, y, x, v) {
      SameAvoiding(adj, root, v, x, y);
      SameAvoiding(adj, root, v, y, x);
    }
  }

  lemma SameAvoiding(adj: seq<set<nat>>, u: nat, v: nat, x: nat, y: nat)
    ensures ReachAvoiding(adj, Below(|adj|), u, v, x, y) ==> ReachAvoiding(adj, Below(|adj|), u, v, y, x)
  {
    if ReachAvoiding(adj, Below(|adj|), u, v, x, y) {
      var p :| Walk(adj, Below(|adj|), p, u, v) && Avoids(p, x, y);
      assert Avoids(p, y, x);
    }
  }

  /** A bridge out of the root's reach separates the root from nothing. */
  lemma UnreachedMissed(adj: seq<set<nat>>, order: seq<seq<nat>>, root: nat, x: nat, y: nat)
    requires Usable(adj, order, root) && !Reach(adj, Below(|adj|), root, x)
    ensures ReachAvoiding(adj, Below(|adj|), root, Last(order, root), x, y)
  {
    var r, last := Found(order, root), Last(order, root);
    FoundFacts(adj, order, root);
    assert last in r;
    var p :| Walk(adj, Below(|adj|), p, root, last);
    forall i | 0 <= i < |p| - 1 ensures !SameEdge(p[i], p[i + 1], x, y) {
      WalkHead(adj, Below(|adj|), p, root, last, i);
      WalkHead(adj, Below(|adj|), p, root, last, i + 1);
    }
    assert Avoids(p, x, y);
  }

  lemma WalkHead(adj: seq<set<nat>>, V: set<nat>, p: seq<nat>, u: nat, v: nat, i: nat)
    requires Walk(adj, V, p, u, v) && i < |p|
    ensures Reach(adj, V, u, p[i])
  {
    var q := p[..i + 1];
    forall k | 0 <= k < |q| - 1 ensures Step(adj, q, k) { assert Step(adj, p, k); }
    assert Walk(adj, V, q, u, p[i]);
  }

  lemma SomeOrderMisses(adj: seq<set<nat>>, root: nat, x: nat, y: nat)
    requires Undirected(adj) && root < |adj| && IsBridge(adj, Below(|adj|), x, y)
    requires !Corridor(adj, root, x, y) && !Corridor(adj, root, y, x)
    ensures exists order :: Usable(adj, order, root) && !Separates(adj, root, Last(order, root), x, y)
  {
    hide Corridor, Last, IsOrder;
    if !Reach(adj, Below(|adj|), root, x) {
      var order := Following(adj, []);
      OrderNamed(adj, order);
      UnreachedMissed(adj, order, root, x, y);
    } else {
      OneEndOnSide(adj, root, x, y);
      SameSide(adj, root, x, y);
      if x in Side(adj, root, x, y) { MissedFromSide(adj, root, x, y); } else { MissedFromSide(adj, root, y, x); }
      var order :| Usable(adj, order, root) && Last(order, root) in Side(adj, root, x, y);
      assert OnSide(adj, root, x, y, Last(order, root));
    }
  }

  ghost predicate EveryOrderReturnsAll(adj: seq<set<nat>>, root: nat) {
    forall order :: Usable(adj, order, root) ==> ReturnsAll(adj, order, root)
  }

  /** Every bridge is reached from the root through a root with one neighbour and then nodes with two. */
  ghost predicate BridgesInCorridors(adj: seq<set<nat>>, root: nat) {
    forall x: nat, y: nat :: IsBridge(adj, Below(|adj|), x, y) ==>
        Corridor(adj, root, x, y) || Corridor(adj, root, y, x)
  }

  /** GetBridges returns all the bridges whatever the map order exactly when every bridge lies at the
      end of a corridor. */
  lemma EveryOrderIff(adj: seq<set<nat>>, root: nat)
    requires Undirected(adj) && root < |adj|
    ensures EveryOrderReturnsAll(adj, root) <==> BridgesInCorridors(adj, root)
  {
    hide Corridor, IsBridge, Separates, Last, IsOrder, Undirected, Named;
    if BridgesInCorridors(adj, root) {
      forall order, x: nat, y: nat | Usable(adj, order, root) && IsBridge(adj, Below(|adj|), x, y)
        ensures Separates(adj, root, Last(order, root), x, y)
      {
        if Corridor(adj, root, x, y) {
          CorridorMarked(adj, order, root, x, y);
        } else {
          CorridorMarked(adj, order, root, y, x);
        }
      }
    } else {
      var x: nat, y: nat :| IsBridge(adj, Below(|adj|), x, y)
          && !(Corridor(adj, root, x, y) || Corridor(adj, root, y, x));
      SomeOrderMisses(adj, root, x, y);
    }
  }

  // ---------------------------------------------------------------- some order

  /** What is left without the first j nodes of p. */
  ghost function Off(adj: seq<set<nat>>, p: seq<nat>, j: nat): set<nat>
    requires j <= |p|
  {
    Below(|adj|) - Elems(p[..j])
  }

  /** v reaches a node of p from the j-th on without the ones before. */
  ghost predicate Ahead(adj: seq<set<nat>>, p: seq<nat>, j: nat, v: nat) {
    exists i :: j <= i < |p| && Reach(adj, Off(adj, p, j), v, p[i])
  }

  /** The neighbours of the j-th node from which the search cannot get ahead on p. */
  ghost function DeadEnds(adj: seq<set<nat>>, p: seq<nat>, j: nat): (dead: set<nat>)
    requires j < |p| && p[j] < |adj|
    ensures dead <= adj[p[j]]
  {
    set c | c in adj[p[j]] && !Ahead(adj, p, j + 1, c)
  }

  /** The nodes of first, then next, then the others. */
  ghost function Arranged(all: set<nat>, first: set<nat>, next: nat): (r: seq<nat>)
    requires next in all && first <= all - {next}
    ensures Distinct(r) && Elems(r) == all && ToSeq(first) + [next] <= r
  {
    var d, rest := ToSeq(first), ToSeq(all - first - {next});
    Joined(d, [next]);
    Joined(d + [next], rest);
    d + [next] + rest
  }

  ghost predicate Straight(adj: seq<set<nat>>, p: seq<nat>, root: nat, z: nat) {
    Walk(adj, Below(|adj|), p, root, z) && Distinct(p)
  }

  lemma NextIsAhead(adj: seq<set<nat>>, p: seq<nat>, root: nat, z: nat, j: nat)
    requires Straight(adj, p, root, z) && j < |p| - 1
    ensures p[j + 1] in adj[p[j]] && p[j + 1] !in DeadEnds(adj, p, j)
  {
    assert Step(adj, p, j);
    assert p[j + 1] !in p[..j + 1];
    ReachSelf(adj, Off(adj, p, j + 1), p[j + 1]);
  }

  /** An order that puts off going along p as long as it can. */
  ghost predicate Delays(adj: seq<set<nat>>, order: seq<seq<nat>>, p: seq<nat>) {
    p != [] && DelaysUpTo(adj, order, p, |p| - 1)
  }

  /** The next node of p can be reached from each. */
  ghost predicate Leads(adj: seq<set<nat>>, p: seq<nat>) {
    && Distinct(p) && (forall j :: 0 <= j < |p| ==> p[j] < |adj|)
    && (forall j: nat :: j < |p| - 1 ==> p[j + 1] in adj[p[j]] && p[j + 1] !in DeadEnds(adj, p, j))
  }

  /** The list of the j-th node is dead ends first, then the next node. */
  ghost predicate DelaysAt(adj: seq<set<nat>>, p: seq<nat>, list: seq<nat>, j: nat)
    requires j < |p| - 1 && p[j] < |adj|
  {
    ToSeq(DeadEnds(adj, p, j)) + [p[j + 1]] <= list
  }

  ghost predicate ListsOf(adj: seq<set<nat>>, order: seq<seq<nat>>) {
    |order| == |adj| && forall v: nat :: v < |adj| ==> Distinct(order[v]) && Elems(order[v]) == adj[v]
  }

  /** The lists of the first k nodes of p are right. */
  ghost predicate DelaysUpTo(adj: seq<set<nat>>, order: seq<seq<nat>>, p: seq<nat>, k: nat)
    requires k < |p|
  {
    && |order| == |adj| && (forall j :: 0 <= j < |p| ==> p[j] < |adj|)
    && (forall j: nat :: j < k ==> DelaysAt(adj, p, order[p[j]], j))
  }

  lemma {:induction false} DelayUpTo(adj: seq<set<nat>>, p: seq<nat>, k: nat) returns (order: seq<seq<nat>>)
    requires Leads(adj, p) && k < |p|
    ensures ListsOf(adj, order) && DelaysUpTo(adj, order, p, k)
  {
    hide ListsOf, DelaysAt, DeadEnds;
    if k == 0 {
      order := AnyLists(adj);
    } else {
      var before := DelayUpTo(adj, p, k - 1);
      var list := DelayedList(adj, p, k - 1);
      order := before[p[k - 1] := list];
      OneListMore(adj, before, p, k - 1, list);
    }
  }

  lemma OneListMore(adj: seq<set<nat>>, order: seq<seq<nat>>, p: seq<nat>, k: nat, list: seq<nat>)
    requires ListsOf(adj, order) && k < |p| - 1 && DelaysUpTo(adj, order, p, k) && Distinct(p)
    requires Distinct(list) && Elems(list) == adj[p[k]] && DelaysAt(adj, p, list, k)
    ensures ListsOf(adj, order[p[k] := list]) && DelaysUpTo(adj, order[p[k] := list], p, k + 1)
  {
    hide DelaysAt, DeadEnds, Elems;
    var order' := order[p[k] := list];
    forall j: nat | j < k + 1 ensures DelaysAt(adj, p, order'[p[j]], j) {
      if j < k { assert p[j] != p[k]; }
    }
  }

  lemma AnyLists(adj: seq<set<nat>>) returns (order: seq<seq<nat>>)
    ensures ListsOf(adj, order) && |order| == |adj|
  {
    order := seq(|adj|, v requires 0 <= v < |adj| => ToSeq(adj[v]));
  }

  lemma DelayedList(adj: seq<set<nat>>, p: seq<nat>, j: nat) returns (list: seq<nat>)
    requires Leads(adj, p) && j < |p| - 1
    ensures Distinct(list) && Elems(list) == adj[p[j]] && DelaysAt(adj, p, list, j)
  {
    list := Arranged(adj[p[j]], DeadEnds(adj, p, j), p[j + 1]);
  }

  lemma DelayExists(adj: seq<set<nat>>, p: seq<nat>, root: nat, z: nat)
    requires Straight(adj, p, root, z)
    ensures exists order :: IsOrder(adj, order) && Delays(adj, order, p)
  {
    hide DelaysAt, DeadEnds;
    forall j: nat | j < |p| - 1 ensures p[j + 1] in adj[p[j]] && p[j + 1] !in DeadEnds(adj, p, j) {
      NextIsAhead(adj, p, root, z, j);
    }
    var order := DelayUpTo(adj, p, |p| - 1);
    assert Delays(adj, order, p);
    forall v: nat, w: nat | v < |adj| ensures w in order[v] <==> w in adj[v] {
      assert w in order[v] <==> w in Elems(order[v]);
    }
    assert IsOrder(adj, order);
  }

  /** Either v gets ahead without the j-th node, or it reaches one of its neighbours. */
  lemma {:induction false} AheadOrBeside(adj: seq<set<nat>>, p: seq<nat>, j: nat, w: seq<nat>, v: nat, i: nat)
    requires Undirected(adj) && Distinct(p) && j <= i < |p| && j < |p| - 1 && p[j] < |adj| && v != p[j]
    requires Walk(adj, Off(adj, p, j), w, v, p[i])
    ensures Ahead(adj, p, j + 1, v) || exists c :: c in adj[p[j]] && Reach(adj, Off(adj, p, j + 1), v, c)
    decreases |w|
  {
    var V := Off(adj, p, j + 1);
    assert p[..j + 1] == p[..j] + [p[j]];
    assert v in V;
    ReachSelf(adj, V, v);
    if |w| > 1 {
      assert Step(adj, w, 0);
      if w[1] != p[j] {
        WalkTail(adj, Off(adj, p, j), w, v, p[i], 1);
        AheadOrBeside(adj, p, j, w[1..], w[1], i);
        ReachEdge(adj, V, v, w[1]);
        if Ahead(adj, p, j + 1, w[1]) {
          var k :| j + 1 <= k < |p| && Reach(adj, V, w[1], p[k]);
          ReachTrans(adj, V, v, w[1], p[k]);
        } else {
          var c :| c in adj[p[j]] && Reach(adj, V, w[1], c);
          ReachTrans(adj, V, v, w[1], c);
        }
      } else {
        assert v in adj[p[j]];
      }
    }
  }

  /** Closed but for the first j nodes of p. */
  ghost predicate ClosedOff(adj: seq<set<nat>>, p: seq<nat>, j: nat, seen: seq<nat>)
    requires j <= |p|
  {
    forall u :: u in seen && u !in p[..j] ==> u < |adj| && adj[u] <= Elems(seen)
  }

  lemma {:induction false} ClosedWalk(adj: seq<set<nat>>, p: seq<nat>, j: nat, seen: seq<nat>, w: seq<nat>, c: nat,
                                      v: nat)
    requires j <= |p| && c in seen && Walk(adj, Off(adj, p, j), w, c, v)
    requires ClosedOff(adj, p, j, seen)
    ensures v in seen
    decreases |w|
  {
    if |w| > 1 {
      assert Step(adj, w, 0);
      WalkTail(adj, Off(adj, p, j), w, c, v, 1);
      ClosedWalk(adj, p, j, seen, w[1..], w[1], v);
    }
  }

  /** What of p has been seen is its first j nodes. */
  ghost predicate SeenUpTo(p: seq<nat>, j: nat, seen: seq<nat>) {
    forall i :: 0 <= i < |p| ==> (p[i] in seen <==> i < j)
  }

  /** Coming down p to its j-th node: what has been seen is closed but for the nodes of p, and what
      has not been seen can get ahead. */
  ghost predicate Entry(adj: seq<set<nat>>, p: seq<nat>, root: nat, j: nat, seen: seq<nat>) {
    && j < |p| && SeenUpTo(p, j, seen) && ClosedOff(adj, p, j, seen)
    && (forall v :: v !in seen && Reach(adj, Below(|adj|), root, v) ==> Ahead(adj, p, j, v))
  }

  /** The dead ends of the j-th node have been searched after it was entered. */
  ghost predicate Searched(adj: seq<set<nat>>, p: seq<nat>, j: nat, seen: seq<nat>, seen': seq<nat>)
    requires j < |p| && p[j] < |adj|
  {
    && Adds(adj, DeadEnds(adj, p, j), seen + [p[j]], seen') && DeadEnds(adj, p, j) <= Elems(seen')
    && (forall u :: u in seen || u == p[j] ==> u in seen')
  }

  lemma NextClosed(adj: seq<set<nat>>, p: seq<nat>, j: nat, seen: seq<nat>, seen': seq<nat>)
    requires j < |p| && p[j] < |adj| && ClosedOff(adj, p, j, seen) && Searched(adj, p, j, seen, seen')
    ensures ClosedOff(adj, p, j + 1, seen')
  {
    assert p[..j + 1] == p[..j] + [p[j]];
    forall u | u in seen' && u !in p[..j + 1] ensures u < |adj| && adj[u] <= Elems(seen') {
      if u in seen { assert u !in p[..j]; }
    }
  }

  /** No dead end leads on along p. */
  lemma NextUnseen(adj: seq<set<nat>>, p: seq<nat>, j: nat, seen: seq<nat>, seen': seq<nat>)
    requires j < |p| - 1 && Distinct(p) && p[j] < |adj| && SeenUpTo(p, j, seen) && Searched(adj, p, j, seen, seen')
    ensures SeenUpTo(p, j + 1, seen')
  {
    var s := seen + [p[j]];
    forall i | j < i < |p| ensures p[i] !in seen' {
      if p[i] in seen' {
        assert ReachFrom(adj, Unseen(|adj|, s), DeadEnds(adj, p, j), p[i]);
        var c :| c in DeadEnds(adj, p, j) && Reach(adj, Unseen(|adj|, s), c, p[i]);
        OffSmaller(adj, p, j, seen);
        ReachMono(adj, Unseen(|adj|, s), Off(adj, p, j + 1), c, p[i]);
      }
    }
  }

  lemma OffSmaller(adj: seq<set<nat>>, p: seq<nat>, j: nat, seen: seq<nat>)
    requires j < |p| && SeenUpTo(p, j, seen)
    ensures Unseen(|adj|, seen + [p[j]]) <= Off(adj, p, j + 1)
  {
    forall x | x in p[..j + 1] ensures x in seen + [p[j]] {
      var i :| 0 <= i < j + 1 && p[i] == x;
      assert i < j ==> p[i] in seen;
    }
  }

  /** What is still unseen gets ahead without the j-th node. */
  lemma NextAhead(adj: seq<set<nat>>, p: seq<nat>, j: nat, seen': seq<nat>, v: nat)
    requires Undirected(adj) && Distinct(p) && j < |p| - 1 && p[j] < |adj|
    requires ClosedOff(adj, p, j + 1, seen') && DeadEnds(adj, p, j) <= Elems(seen') && p[j] in seen'
    requires v !in seen' && Ahead(adj, p, j, v)
    ensures Ahead(adj, p, j + 1, v)
  {
    var V := Off(adj, p, j + 1);
    var i :| j <= i < |p| && Reach(adj, Off(adj, p, j), v, p[i]);
    var w :| Walk(adj, Off(adj, p, j), w, v, p[i]);
    AheadOrBeside(adj, p, j, w, v, i);
    if !Ahead(adj, p, j + 1, v) {
      var c :| c in adj[p[j]] && Reach(adj, V, v, c);
      if Ahead(adj, p, j + 1, c) {
        var k :| j + 1 <= k < |p| && Reach(adj, V, c, p[k]);
        ReachTrans(adj, V, v, c, p[k]);
      } else {
        assert c in DeadEnds(adj, p, j);
        ReachSym(adj, V, v, c);
        var back :| Walk(adj, V, back, c, v);
        ClosedWalk(adj, p, j + 1, seen', back, c, v);
      }
    }
  }

  lemma NextEntry(adj: seq<set<nat>>, p: seq<nat>, root: nat, j: nat, seen: seq<nat>, seen': seq<nat>)
    requires Undirected(adj) && Distinct(p) && Entry(adj, p, root, j, seen) && j < |p| - 1 && p[j] < |adj|
    requires Searched(adj, p, j, seen, seen')
    ensures Entry(adj, p, root, j + 1, seen')
  {
    hide Ahead, Reach, Distinct, Undirected, Adds;
    NextClosed(adj, p, j, seen, seen');
    NextUnseen(adj, p, j, seen, seen');
    forall v | v !in seen' && Reach(adj, Below(|adj|), root, v) ensures Ahead(adj, p, j + 1, v) {
      NextAhead(adj, p, j, seen', v);
    }
  }

  /** The order searches the dead ends of the j-th node and then goes on along p. */
  lemma DeadEndsSearched(adj: seq<set<nat>>, order: seq<seq<nat>>, p: seq<nat>, root: nat, j: nat, seen: seq<nat>)
    returns (seen': seq<nat>)
    requires Usable(adj, order, root) && Delays(adj, order, p) && j < |p| - 1 && p[j] !in seen
    ensures Searched(adj, p, j, seen, seen')
    ensures p[j + 1] !in seen' ==> Discover(order, p[j + 1], seen') <= Discover(order, p[j], seen)
  {
    hide Adds, IsOrder, Undirected, DeadEnds;
    var a, dead := p[j], DeadEnds(adj, p, j);
    var s, d := seen + [a], ToSeq(dead);
    assert DelaysAt(adj, p, order[a], j);
    forall i | 0 <= i <= |d| ensures i < |order[a]| && order[a][i] == (d + [p[j + 1]])[i] {
      PrefixAt(d + [p[j + 1]], order[a], i);
    }
    assert forall i :: 0 <= i < |d| ==> d[i] in Elems(d);
    seen' := ScanTo(order, a, 0, |d|, s);
    ScanToAdds(adj, order, a, 0, |d|, dead, s);
    ScanSplits(order, a, 0, |d|, s);
    forall c | c in dead ensures c in Elems(seen') {
      assert c in Elems(d);
      var i :| 0 <= i < |d| && d[i] == c;
      assert order[a][i] in seen';
    }
    forall u | u in seen || u == a ensures u in seen' { PrefixHolds(s, seen', u); }
  }

  lemma PrefixAt(s: seq<nat>, r: seq<nat>, i: nat)
    requires s <= r && i < |s|
    ensures i < |r| && r[i] == s[i]
  {
  }

  lemma PrefixHolds(s: seq<nat>, r: seq<nat>, u: nat)
    requires s <= r && u in s
    ensures u in r
  {
    var i :| 0 <= i < |s| && s[i] == u;
    assert r[i] == u;
  }

  /** The search comes down p, and enters its end only when it has seen all it could before. */
  lemma {:induction false} ComesDown(adj: seq<set<nat>>, order: seq<seq<nat>>, p: seq<nat>, root: nat, j: nat,
                                     seen: seq<nat>)
    returns (seen': seq<nat>)
    requires Usable(adj, order, root) && Distinct(p) && Delays(adj, order, p) && Entry(adj, p, root, j, seen)
    ensures Entry(adj, p, root, |p| - 1, seen') && p[j] !in seen && p[|p| - 1] !in seen' && p[|p| - 1] < |order|
    ensures Discover(order, p[|p| - 1], seen') <= Discover(order, p[j], seen)
    decreases |p| - j
  {
    hide ClosedOff, Ahead, Reach, Undirected, IsOrder, DeadEnds;
    seen' := seen;
    if j < |p| - 1 {
      var seen1 := DeadEndsSearched(adj, order, p, root, j, seen);
      NextEntry(adj, p, root, j, seen, seen1);
      seen' := ComesDown(adj, order, p, root, j + 1, seen1);
    }
  }

  lemma FirstEntry(adj: seq<set<nat>>, p: seq<nat>, root: nat, z: nat)
    requires Undirected(adj) && Straight(adj, p, root, z)
    ensures Entry(adj, p, root, 0, [])
  {
    assert p[..0] == [];
    assert Off(adj, p, 0) == Below(|adj|);
    forall v | Reach(adj, Below(|adj|), root, v) ensures Ahead(adj, p, 0, v) {
      ReachSym(adj, Below(|adj|), root, v);
      assert p[0] == root;
    }
  }

  /** Delaying p makes the search end with a node that is joined to the end of p off the rest of p. */
  lemma LastJoined(adj: seq<set<nat>>, order: seq<seq<nat>>, p: seq<nat>, root: nat, z: nat)
    requires Usable(adj, order, root) && Straight(adj, p, root, z) && Delays(adj, order, p)
    ensures Reach(adj, Off(adj, p, |p| - 1), Last(order, root), z)
  {
    hide Delays, Discover, IsOrder, Undirected, Walk, Named, ClosedOff;
    FirstEntry(adj, p, root, z);
    StraightEnds(adj, p, root, z);
    var seen := ComesDown(adj, order, p, root, 0, []);
    var r := Found(order, root);
    FoundIs(order, root);
    FoundFacts(adj, order, root);
    EndsAfter(seen, z, Discover(order, z, seen), r);
    assert Ahead(adj, p, |p| - 1, r[|r| - 1]);
  }

  lemma EndsAfter(seen: seq<nat>, z: nat, s: seq<nat>, r: seq<nat>)
    requires seen + [z] <= s <= r && z !in seen && Distinct(r)
    ensures r != [] && r[|r| - 1] in r && r[|r| - 1] !in seen
  {
    assert (seen + [z])[|seen|] == r[|seen|] == z;
    LastIsNew(seen, r, z);
  }

  lemma StraightEnds(adj: seq<set<nat>>, p: seq<nat>, root: nat, z: nat)
    requires Straight(adj, p, root, z)
    ensures |p| > 0 && p[0] == root && p[|p| - 1] == z && z < |adj|
  {
  }

  /** What separates the root from z separates it from every node joined to z off the path to z. */
  lemma SeparatedToo(adj: seq<set<nat>>, p: seq<nat>, root: nat, z: nat, last: nat, x: nat, y: nat)
    requires Undirected(adj) && Straight(adj, p, root, z) && Separates(adj, root, z, x, y)
    requires Reach(adj, Off(adj, p, |p| - 1), last, z)
    ensures Separates(adj, root, last, x, y)
  {
    if ReachAvoiding(adj, Below(|adj|), root, last, x, y) {
      var V := Off(adj, p, |p| - 1);
      assert !Avoids(p, x, y);
      var i :| 0 <= i < |p| - 1 && SameEdge(p[i], p[i + 1], x, y);
      assert p[i] == p[..|p| - 1][i];
      InsideAvoids(adj, V, last, z, x, y);
      AvoidMono(adj, V, Below(|adj|), last, z, x, y);
      AvoidTrans(adj, Below(|adj|), root, last, z, x, y);
    }
  }

  ghost predicate SomeOrderReturnsAll(adj: seq<set<nat>>, root: nat) {
    exists order :: Usable(adj, order, root) && ReturnsAll(adj, order, root)
  }

  /** Some node that the root reaches lies behind every bridge. */
  ghost predicate BehindEveryBridge(adj: seq<set<nat>>, root: nat) {
    exists z :: Reach(adj, Below(|adj|), root, z) && AllMarked(adj, root, z)
  }

  /** GetBridges can return all the bridges, with luck, exactly when one node lies behind them all. */
  lemma SomeOrderIff(adj: seq<set<nat>>, root: nat)
    requires Undirected(adj) && root < |adj|
    ensures SomeOrderReturnsAll(adj, root) <==> BehindEveryBridge(adj, root)
  {
    hide Separates, Last, IsOrder, IsBridge, Straight, Delays;
    if SomeOrderReturnsAll(adj, root) {
      var order :| Usable(adj, order, root) && ReturnsAll(adj, order, root);
      LastReached(adj, order, root);
    }
    if BehindEveryBridge(adj, root) {
      var z :| Reach(adj, Below(|adj|), root, z) && AllMarked(adj, root, z);
      var p := StraightTo(adj, root, z);
      DelayExists(adj, p, root, z);
      var order :| IsOrder(adj, order) && Delays(adj, order, p);
      OrderNamed(adj, order);
      assert |order| == |adj| by { OrderSize(adj, order); }
      LastJoined(adj, order, p, root, z);
      forall x: nat, y: nat | IsBridge(adj, Below(|adj|), x, y) ensures Separates(adj, root, Last(order, root), x, y) {
        SeparatedToo(adj, p, root, z, Last(order, root), x, y);
      }
      assert ReturnsAll(adj, order, root);
    }
  }

  lemma OrderSize(adj: seq<set<nat>>, order: seq<seq<nat>>)
    requires IsOrder(adj, order)
    ensures |order| == |adj|
  {
  }

  lemma LastReached(adj: seq<set<nat>>, order: seq<seq<nat>>, root: nat)
    requires Usable(adj, order, root)
    ensures Reach(adj, Below(|adj|), root, Last(order, root))
  {
    FoundFacts(adj, order, root);
    var r := Found(order, root);
    assert r[|r| - 1] in r;
  }

  lemma StraightTo(adj: seq<set<nat>>, root: nat, z: nat) returns (p: seq<nat>)
    requires Reach(adj, Below(|adj|), root, z)
    ensures Straight(adj, p, root, z)
  {
    var w :| Walk(adj, Below(|adj|), w, root, z);
    ShortestExists(adj, Below(|adj|), w, root, z);
    p :| ShortestWalk(adj, Below(|adj|), p, root, z);
    ShortestIsStraight(adj, Below(|adj|), p, root, z);
  }

  const FORK: seq<set<nat>> := [{1, 2}, {0}, {0}]

  lemma ForkBridge(v: nat)
    requires v == 1 || v == 2
    ensures Undirected(FORK) && v in FORK[0] && IsBridge(FORK, Below(3), 0, v)
  {
    assert OnlyExit(FORK, {v}, 0, v);
    NoWalkAcross(FORK, Below(3), {v}, v, 0, 0, v);
  }

  /** On the path 1 - 0 - 2 searched from 0 both edges are bridges, and no node lies behind both. */
  lemma ForkSides(z: nat)
    requires z < 3
    ensures !AllMarked(FORK, 0, z)
  {
    hide OnlyExit, Walk;
    ForkBridge(1);
    ForkBridge(2);
    if z == 0 {
      ReachSelf(FORK, Below(3), 0);
    } else {
      ReachEdge(FORK, Below(3), 0, z);
    }
    assert !Separates(FORK, 0, z, 0, if z == 1 then 2 else 1);
  }

  /** A graph of three nodes on which no order returns all the bridges. */
  lemma ForkMissesABridge()
    ensures Undirected(FORK) && !SomeOrderReturnsAll(FORK, 0)
  {
    hide Reach, IsBridge, Separates;
    forall z | Reach(FORK, Below(3), 0, z) ensures !AllMarked(FORK, 0, z) {
      ReachEnd(FORK, Below(3), 0, z);
      ForkSides(z);
    }
    ForkBridge(1);
    SomeOrderIff(FORK, 0);
  }
}
