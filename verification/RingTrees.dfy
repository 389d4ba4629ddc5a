/**
 The constrained tree builder behind the rings.  Tree is the state that `dijkstra` mutates: one
 onet tree node per name, its parent and children, and the maps visited, distances and depth.
 */
module RingTrees {
  import opened Sets
  import opened Locality

  const UNREACHED: real := 60000.0
  const INITIAL: real := 66000.0
  const FAN_OUT: nat := 10

  datatype Tree = Tree(visited: set<nat>, inTree: set<nat>, distance: seq<real>, depth: seq<nat>,
                       parent: seq<Option<nat>>, children: seq<seq<nat>>)
  {
    ghost predicate Shaped(n: nat) {
      && |distance| == |depth| == |parent| == |children| == n
      && visited <= inTree <= Below(n)
    }

    /** innerNodes of dfsBuildTree */
    function Inner(): set<nat>
      requires forall x: nat :: x in inTree ==> x < |children|
    {
      set x | x in inTree && |children[x]| > 0
    }
  }

  function FreshTree(n: nat, root: nat): Tree
    requires root < n
  {
    Tree({}, {}, seq(n, _ => INITIAL)[root := 0.0], seq(n, _ => 66000)[root := 0], seq(n, _ => None), seq(n, _ => []))
  }

  function RemoveFirst(s: seq<nat>, x: nat): seq<nat> {
    if s == [] then [] else if s[0] == x then s[1..] else [s[0]] + RemoveFirst(s[1..], x)
  }

  /** Removing the first occurrence from a duplicate-free list. */
  lemma {:induction false} RemoveFirstSpec(s: seq<nat>, x: nat)
    requires Distinct(s) && x in s
    ensures Distinct(RemoveFirst(s, x)) && |RemoveFirst(s, x)| == |s| - 1
    ensures forall y :: y in RemoveFirst(s, x) <==> y in s && y != x
    ensures RemoveFirst(s + [x], x) == RemoveFirst(s, x) + [x]
  {
    assert (s + [x])[1..] == s[1..] + [x];
    assert s == [s[0]] + s[1..];
    if s[0] != x {
      assert Distinct(s[1..]);
      RemoveFirstSpec(s[1..], x);
      assert s[0] !in s[1..];
    }
  }

  lemma {:induction false} RemoveFirstAt(s: seq<nat>, x: nat, i: nat)
    requires i < |s| && s[i] == x && forall j :: 0 <= j < i ==> s[j] != x
    ensures RemoveFirst(s, x) == s[..i] + s[i + 1..]
    decreases |s|
  {
    if i > 0 {
      RemoveFirstAt(s[1..], x, i - 1);
      assert s[..i] == [s[0]] + s[1..][..i - 1];
      assert s[1..][i..] == s[i + 1..];
    }
  }

  /** The list of p holds exactly once each of the attached nodes whose parent is p. */
  ghost predicate ListOk(t: Tree, n: nat, p: nat) {
    && t.Shaped(n) && p < n
    && Distinct(t.children[p]) && |t.children[p]| <= FAN_OUT
    && (forall c: nat :: c in t.children[p] <==> c in t.inTree && c < n && t.parent[c] == Some(p))
    && (p !in t.visited ==> t.children[p] == [])
  }

  /** An attached node hangs below a visited parent, one level deeper and one edge farther. */
  ghost predicate HangsOk(t: Tree, d: seq<seq<real>>, n: nat, root: nat, x: nat) {
    && t.Shaped(n) && x < n && Square(d, n)
    && match t.parent[x]
       case None => x == root
       case Some(p) =>
         && x != root && p < n && p in t.visited
         && t.depth[x] == t.depth[p] + 1 && t.distance[x] == t.distance[p] + d[p][x]
  }

  /** The invariant every step of dijkstra keeps. */
  ghost predicate TreeInv(t: Tree, d: seq<seq<real>>, n: nat, root: nat) {
    && t.Shaped(n) && Square(d, n) && root < n
    && t.distance[root] == 0.0 && t.depth[root] == 0 && t.parent[root] == None
    && (root in t.visited || t.inTree == {})
    && (forall x: nat :: x < n && x !in t.inTree ==> t.parent[x] == None && (x != root ==> t.distance[x] == INITIAL))
    && (forall x: nat :: x in t.inTree ==> HangsOk(t, d, n, root, x))
    && (forall p: nat :: p < n ==> ListOk(t, n, p))
  }

  ghost predicate DepthAtMost(t: Tree, k: nat) {
    forall x: nat :: x in t.inTree && x < |t.depth| ==> t.depth[x] <= k
  }

  lemma FreshOk(d: seq<seq<real>>, n: nat, root: nat)
    requires Square(d, n) && root < n
    ensures TreeInv(FreshTree(n, root), d, n, root)
  {
    hide HangsOk, ListOk;
    forall p: nat | p < n ensures ListOk(FreshTree(n, root), n, p) { FreshList(n, root, p); }
  }

  lemma FreshList(n: nat, root: nat, p: nat)
    requires root < n && p < n
    ensures ListOk(FreshTree(n, root), n, p)
  {
  }

  /** The relaxation: x becomes the last child of m and leaves its former parent. */
  function Attach(t: Tree, d: seq<seq<real>>, n: nat, m: nat, x: nat): Tree
    requires m < n && x < n && Square(d, n)
    requires |t.distance| == |t.depth| == |t.parent| == |t.children| == n
    requires t.parent[x].Some? ==> t.parent[x].value < n
  {
    var ch := t.children[m := t.children[m] + [x]];
    Tree(t.visited, t.inTree + {x}, t.distance[x := t.distance[m] + d[m][x]], t.depth[x := t.depth[m] + 1],
         t.parent[x := Some(m)],
         if t.parent[x].Some? then ch[t.parent[x].value := RemoveFirst(ch[t.parent[x].value], x)] else ch)
  }

  function Visit(t: Tree, m: nat): Tree {
    t.(visited := t.visited + {m}, inTree := t.inTree + {m})
  }

  /** Once visited, a node's parent, depth and distance stay; nothing leaves the tree. */
  ghost predicate Grows(t: Tree, t': Tree, n: nat) {
    && t.Shaped(n) && t'.Shaped(n)
    && t.visited <= t'.visited && t.inTree <= t'.inTree
    && forall x: nat :: x in t.visited ==>
        t'.parent[x] == t.parent[x] && t'.depth[x] == t.depth[x] && t'.distance[x] == t.distance[x]
  }

  lemma GrowsTrans(t: Tree, t': Tree, t'': Tree, n: nat)
    requires Grows(t, t', n) && Grows(t', t'', n)
    ensures Grows(t, t'', n)
  {
  }

  lemma AttachLists(t: Tree, d: seq<seq<real>>, n: nat, root: nat, m: nat, x: nat, p: nat)
    requires TreeInv(t, d, n, root) && m in t.visited && x < n && x !in t.visited && x != root
    requires |t.children[m]| < FAN_OUT && p < n
    ensures t.parent[x].Some? ==> t.parent[x].value < n
    ensures Attach(t, d, n, m, x).Shaped(n) && ListOk(Attach(t, d, n, m, x), n, p)
  {
    hide ListOk;
    if x in t.inTree {
      assert HangsOk(t, d, n, root, x);
      RehungLists(t, d, n, m, x, p);
    } else {
      HungLists(t, d, n, m, x, p);
    }
  }

  /** x leaves the list of its former parent and becomes the last child of m. */
  lemma RehungLists(t: Tree, d: seq<seq<real>>, n: nat, m: nat, x: nat, p: nat)
    requires t.Shaped(n) && Square(d, n) && m in t.visited && x in t.inTree && x !in t.visited && p < n
    requires t.parent[x].Some? && t.parent[x].value < n && |t.children[m]| < FAN_OUT
    requires ListOk(t, n, p) && ListOk(t, n, m) && ListOk(t, n, t.parent[x].value)
    ensures Attach(t, d, n, m, x).Shaped(n) && ListOk(Attach(t, d, n, m, x), n, p)
  {
    var t', q := Attach(t, d, n, m, x), t.parent[x].value;
    RemoveFirstSpec(t.children[q], x);
    assert p == q == m ==> t'.children[p] == RemoveFirst(t.children[q], x) + [x];
    assert p == m != q ==> t'.children[p] == t.children[m] + [x];
    assert p == q != m ==> t'.children[p] == RemoveFirst(t.children[q], x);
    assert p != q && p != m ==> t'.children[p] == t.children[p];
  }

  lemma HungLists(t: Tree, d: seq<seq<real>>, n: nat, m: nat, x: nat, p: nat)
    requires t.Shaped(n) && Square(d, n) && m in t.visited && x < n && x !in t.inTree && p < n
    requires t.parent[x].None? && |t.children[m]| < FAN_OUT && ListOk(t, n, p) && ListOk(t, n, m)
    ensures Attach(t, d, n, m, x).Shaped(n) && ListOk(Attach(t, d, n, m, x), n, p)
  {
    var t' := Attach(t, d, n, m, x);
    assert x !in t.children[m];
    assert t'.children[p] == if p == m then t.children[m] + [x] else t.children[p];
  }

  lemma AttachKeeps(t: Tree, d: seq<seq<real>>, n: nat, root: nat, m: nat, x: nat)
    requires TreeInv(t, d, n, root) && m in t.visited && x < n && x !in t.visited
    requires |t.children[m]| < FAN_OUT
    ensures t.parent[x].Some? ==> t.parent[x].value < n
    ensures TreeInv(Attach(t, d, n, m, x), d, n, root) && Grows(t, Attach(t, d, n, m, x), n)
    ensures forall k: nat :: DepthAtMost(t, k) && t.depth[m] + 1 <= k ==> DepthAtMost(Attach(t, d, n, m, x), k)
  {
    assert x != root;
    AttachLists(t, d, n, root, m, x, m);
    var t' := Attach(t, d, n, m, x);
    forall p: nat | p < n ensures ListOk(t', n, p) { AttachLists(t, d, n, root, m, x, p); }
    forall y: nat | y in t'.inTree ensures HangsOk(t', d, n, root, y) {
      if y != x { assert HangsOk(t, d, n, root, y); }
    }
  }

  lemma VisitKeeps(t: Tree, d: seq<seq<real>>, n: nat, root: nat, m: nat)
    requires TreeInv(t, d, n, root) && m < n && (m in t.inTree || m == root) && (t.inTree == {} ==> m == root)
    ensures TreeInv(Visit(t, m), d, n, root) && Grows(t, Visit(t, m), n)
    ensures forall k: nat :: DepthAtMost(t, k) ==> DepthAtMost(Visit(t, m), k)
  {
    var t' := Visit(t, m);
    forall p: nat | p < n ensures ListOk(t', n, p) { assert ListOk(t, n, p); }
    forall x: nat | x in t'.inTree ensures HangsOk(t', d, n, root, x) {
      if x in t.inTree { assert HangsOk(t, d, n, root, x); }
    }
  }

  /** The arguments of one dijkstra call besides the state. */
  datatype Limits = Limits(neighbors: seq<set<nat>>, allowed: set<nat>, forcedLeafs: set<nat>, buildLeafs: bool,
                           radius: real, failed: bool)
  {
    function MaxDepth(): nat { if failed then 3 else 2 }

    predicate MayBeInner(x: nat) { buildLeafs || x !in forcedLeafs }
  }

  /** The test that decides whether x is hung below m. */
  predicate Wants(t: Tree, d: seq<seq<real>>, n: nat, c: Limits, m: nat, x: nat)
    requires m < n && x < n && Square(d, n) && |t.distance| == |t.depth| == |t.children| == n
  {
    var dist := t.distance[m] + d[m][x];
    && x !in t.visited && x in c.allowed && |t.children[m]| < FAN_OUT
    && ((t.distance[x] > dist && ((!c.failed && t.depth[m] < 2) || (c.failed && t.depth[m] < 3))) ||
        (dist <= c.radius && (((c.buildLeafs || (!c.buildLeafs && x in c.forcedLeafs)) && t.depth[m] < 2) ||
            (c.failed && t.depth[m] < 3))))
  }

  /** The same test with the mode factored out: below the depth limit, x is hung if that brings it
      nearer, or, within the radius, if the mode allows it or x is a leaf to be. */
  lemma WantsIff(t: Tree, d: seq<seq<real>>, n: nat, c: Limits, m: nat, x: nat)
    requires m < n && x < n && Square(d, n) && |t.distance| == |t.depth| == |t.children| == n
    ensures Wants(t, d, n, c, m, x) <==>
            && x !in t.visited && x in c.allowed && |t.children[m]| < 10
            && t.depth[m] < (if c.failed then 3 else 2)
            && (t.distance[x] > t.distance[m] + d[m][x] ||
                (t.distance[m] + d[m][x] <= c.radius && (c.failed || c.buildLeafs || x in c.forcedLeafs)))
  {
  }

  /** What any stretch of a dijkstra call does to the tree. */
  ghost predicate Progress(t: Tree, t': Tree, n: nat, root: nat, c: Limits) {
    && Grows(t, t', n)
    && t'.inTree <= t.inTree + c.allowed + {root}
    && (forall x: nat :: x < n && t'.children[x] != [] ==> t.children[x] != [] || x == root || c.MayBeInner(x))
    && (forall k: nat :: DepthAtMost(t, k) && c.MaxDepth() <= k ==> DepthAtMost(t', k))
    && (forall x: nat :: x < n && t'.parent[x] != t.parent[x] ==> HangsOnEdge(t', c.neighbors, x))
  }

  /** x hangs below a node that it is a neighbour of. */
  ghost predicate HangsOnEdge(t: Tree, neighbors: seq<set<nat>>, x: nat) {
    && x < |t.parent| && t.parent[x].Some? && t.parent[x].value < |neighbors|
    && x in neighbors[t.parent[x].value]
  }

  lemma ProgressTrans(t: Tree, t': Tree, t'': Tree, n: nat, root: nat, c: Limits)
    requires Progress(t, t', n, root, c) && Progress(t', t'', n, root, c)
    ensures Progress(t, t'', n, root, c)
  {
    GrowsTrans(t, t', t'', n);
  }

  lemma AttachProgress(t: Tree, d: seq<seq<real>>, n: nat, root: nat, c: Limits, m: nat, x: nat)
    requires TreeInv(t, d, n, root) && m in t.visited && m < n && x < n && Wants(t, d, n, c, m, x)
    requires (m == root || c.MayBeInner(m)) && m < |c.neighbors| && x in c.neighbors[m]
    ensures t.parent[x].Some? ==> t.parent[x].value < n
    ensures TreeInv(Attach(t, d, n, m, x), d, n, root) && Progress(t, Attach(t, d, n, m, x), n, root, c)
  {
    AttachKeeps(t, d, n, root, m, x);
    var t' := Attach(t, d, n, m, x);
    forall y: nat | y < n && t'.children[y] != [] ensures t.children[y] != [] || y == root || c.MayBeInner(y) {
      if y != m {
        assert ListOk(t', n, y) && ListOk(t, n, y);
        var z := t'.children[y][0];
        assert z in t'.children[y];
        assert z in t.inTree && t.parent[z] == Some(y);
      }
    }
  }

  lemma VisitProgress(t: Tree, d: seq<seq<real>>, n: nat, root: nat, c: Limits, m: nat)
    requires TreeInv(t, d, n, root) && m < n && (m in t.inTree || m == root) && (t.inTree == {} ==> m == root)
    ensures TreeInv(Visit(t, m), d, n, root) && Progress(t, Visit(t, m), n, root, c)
  {
    VisitKeeps(t, d, n, root, m);
  }

  /** A node with a distance below the mark is the root or hangs in the tree. */
  lemma ReachedIsAttached(t: Tree, d: seq<seq<real>>, n: nat, root: nat, x: nat)
    requires TreeInv(t, d, n, root) && x < n && t.distance[x] < UNREACHED
    ensures x in t.inTree || x == root
  {
  }

  lemma IsListed(t: Tree, d: seq<seq<real>>, n: nat, root: nat, x: nat)
    requires TreeInv(t, d, n, root) && x < n
    ensures t.parent[x].Some? ==> t.parent[x].value < n && x in t.children[t.parent[x].value]
  {
    if t.parent[x].Some? {
      assert HangsOk(t, d, n, root, x);
      assert ListOk(t, n, t.parent[x].value);
    }
  }

  /** The loop that searches x in a child list and cuts it out. */
  method Without(s: seq<nat>, x: nat) returns (r: seq<nat>)
    requires x in s
    ensures r == RemoveFirst(s, x)
  {
    var idx := 0;
    while s[idx] != x
      invariant idx < |s| && x in s[idx..]
      invariant forall j :: 0 <= j < idx ==> s[j] != x
      decreases |s| - idx
    {
      idx := idx + 1;
    }
    RemoveFirstAt(s, x, idx);
    r := s[..idx] + s[idx + 1..];
  }

  /** Each of these neighbours of m hangs below m now, or m does not want it. */
  ghost predicate Served(t: Tree, d: seq<seq<real>>, n: nat, c: Limits, m: nat, xs: set<nat>) {
    && m < n && Square(d, n) && |t.distance| == |t.depth| == |t.parent| == |t.children| == n
    && forall x :: x in xs ==> x < n && (t.parent[x] == Some(m) || !Wants(t, d, n, c, m, x))
  }

  /** Only nodes that hang below m afterwards have been touched. */
  ghost predicate OnlyMoves(t: Tree, t': Tree, n: nat, m: nat) {
    && |t.distance| == |t.parent| == |t'.distance| == |t'.parent| == n
    && forall x: nat :: x < n && t'.parent[x] != Some(m) ==>
        t'.parent[x] == t.parent[x] && t'.distance[x] == t.distance[x]
  }

  lemma NothingServed(t: Tree, d: seq<seq<real>>, n: nat, c: Limits, m: nat)
    requires t.Shaped(n) && Square(d, n) && m in t.visited
    ensures m < n && Served(t, d, n, c, m, {}) && OnlyMoves(t, t, n, m)
  {
  }

  lemma NotWanted(t: Tree, d: seq<seq<real>>, n: nat, c: Limits, m: nat, xs: set<nat>, x: nat)
    requires Served(t, d, n, c, m, xs) && x in xs && m < n && t.Shaped(n) && Square(d, n) && x < n
    ensures t.parent[x] == Some(m) || !Wants(t, d, n, c, m, x)
  {
  }

  lemma AttachAdds(t: Tree, d: seq<seq<real>>, n: nat, c: Limits, m: nat, x: nat)
    requires m < n && x < n && Square(d, n) && t.Shaped(n) && (t.parent[x].Some? ==> t.parent[x].value < n)
    ensures Attach(t, d, n, m, x).inTree == t.inTree + {x}
  {
  }

  lemma OnlyMovesTrans(t: Tree, t': Tree, t'': Tree, n: nat, m: nat)
    requires OnlyMoves(t, t', n, m) && OnlyMoves(t', t'', n, m)
    requires forall x: nat :: x < n && t'.parent[x] == Some(m) ==> t''.parent[x] == Some(m)
    ensures OnlyMoves(t, t'', n, m)
  {
  }

  /** One more neighbour served; m never loses a child meanwhile. */
  lemma ServesOne(t: Tree, t': Tree, d: seq<seq<real>>, n: nat, root: nat, c: Limits, m: nat, x: nat, done: set<nat>)
    requires TreeInv(t, d, n, root) && m in t.visited && m < n && x < n && Served(t, d, n, c, m, done)
    requires t.parent[x].Some? ==> t.parent[x].value < n
    requires t' == if Wants(t, d, n, c, m, x) then Attach(t, d, n, m, x) else t
    ensures Served(t', d, n, c, m, done + {x}) && OnlyMoves(t, t', n, m)
    ensures forall y: nat :: y < n && t.parent[y] == Some(m) ==> t'.parent[y] == Some(m)
  {
    if Wants(t, d, n, c, m, x) {
      KeepsChildren(t, d, n, root, m, x);
      assert x != m;
    }
  }

  lemma KeepsChildren(t: Tree, d: seq<seq<real>>, n: nat, root: nat, m: nat, x: nat)
    requires TreeInv(t, d, n, root) && m < n && x < n
    requires t.parent[x].Some? ==> t.parent[x].value < n
    ensures |Attach(t, d, n, m, x).children[m]| >= |t.children[m]|
  {
    if t.parent[x].Some? {
      IsListed(t, d, n, root, x);
      assert ListOk(t, n, t.parent[x].value);
      RemoveFirstSpec(t.children[t.parent[x].value], x);
    }
  }

  class Builder {
    const n: nat
    const root: nat
    const d: seq<seq<real>>
    var visited: set<nat>
    var distance: seq<real>
    var depth: seq<nat>
    var inTree: set<nat>
    var parent: seq<Option<nat>>
    var children: seq<seq<nat>>

    function View(): Tree
      reads this
    {
      Tree(visited, inTree, distance, depth, parent, children)
    }

    ghost predicate Valid()
      reads this
    {
      TreeInv(View(), d, n, root)
    }

    constructor (n: nat, root: nat, d: seq<seq<real>>)
      requires root < n && Square(d, n)
      ensures this.n == n && this.root == root && this.d == d && View() == FreshTree(n, root) && Valid()
    {
      var t := FreshTree(n, root);
      this.n, this.root, this.d := n, root, d;
      visited, inTree, distance := t.visited, t.inTree, t.distance;
      depth, parent, children := t.depth, t.parent, t.children;
      FreshOk(d, n, root);
    }

    /** Hangs x below m, taking it away from its former parent. */
    method HangBelow(m: nat, x: nat)
      requires m < n && x < n && Square(d, n) && |distance| == |depth| == |parent| == |children| == n
      requires parent[x].Some? ==> parent[x].value < n && x in children[parent[x].value]
      modifies this`distance, this`depth, this`inTree, this`parent, this`children
      ensures View() == Attach(old(View()), d, n, m, x)
    {
      distance := distance[x := distance[m] + d[m][x]];
      inTree := inTree + {x};
      children := children[m := children[m] + [x]];
      if parent[x].Some? {
        var rest := Without(children[parent[x].value], x);
        children := children[parent[x].value := rest];
      }
      parent := parent[x := Some(m)];
      depth := depth[x := depth[m] + 1];
    }

    /** One neighbour x of the picked node m. */
    method Relax(c: Limits, m: nat, x: nat)
      requires Valid() && m in visited && x < n && (m == root || c.MayBeInner(m))
      requires m < |c.neighbors| && x in c.neighbors[m]
      modifies this`distance, this`depth, this`inTree, this`parent, this`children
      ensures Valid() && Progress(old(View()), View(), n, root, c)
      ensures m < n
      ensures View() == (if Wants(old(View()), d, n, c, m, x) then Attach(old(View()), d, n, m, x) else old(View()))
    {
      hide TreeInv, Progress, Wants, Attach;
      ghost var t := View();
      StartsProgress(t, d, n, root, c);
      assert m < n;
      if Wants(View(), d, n, c, m, x) {
        AttachProgress(t, d, n, root, c, m, x);
        IsListed(t, d, n, root, x);
        HangBelow(m, x);
      }
    }

    method RelaxNeighbours(c: Limits, m: nat)
      requires Valid() && m in visited && m < |c.neighbors| && (m == root || c.MayBeInner(m))
      requires forall x: nat :: x in c.neighbors[m] ==> x < n
      modifies this`distance, this`depth, this`inTree, this`parent, this`children
      ensures Valid() && Progress(old(View()), View(), n, root, c) && m < n
      ensures Served(View(), d, n, c, m, c.neighbors[m])
      ensures OnlyMoves(old(View()), View(), n, m) && inTree <= old(inTree) + c.neighbors[m]
      // an allowed neighbour not visited yet is left where it is only if m is full or too deep, or
      // would be farther and has no other claim to it
      ensures |distance| == |depth| == |parent| == |children| == n && Square(d, n)
      ensures forall x: nat :: x < n && x in c.neighbors[m] && x in c.allowed && x !in visited ==>
                || parent[x] == Some(m) || |children[m]| >= 10 || depth[m] >= (if c.failed then 3 else 2)
                || (distance[x] <= distance[m] + d[m][x] &&
                    !(distance[m] + d[m][x] <= c.radius && (c.failed || c.buildLeafs || x in c.forcedLeafs)))
    {
      hide TreeInv, Progress, Served, OnlyMoves, Wants;
      ghost var t := View();
      StartsProgress(t, d, n, root, c);
      NothingServed(t, d, n, c, m);
      var todo := c.neighbors[m];
      assert c.neighbors[m] - todo == {};
      while todo != {}
        invariant Valid() && Progress(t, View(), n, root, c) && todo <= c.neighbors[m]
        invariant Served(View(), d, n, c, m, c.neighbors[m] - todo) && OnlyMoves(t, View(), n, m)
        invariant inTree <= t.inTree + c.neighbors[m]
        decreases todo
      {
        var x :| x in todo;
        ghost var t', done := View(), c.neighbors[m] - todo;
        todo := todo - {x};
        Relax(c, m, x);
        ProgressTrans(t, t', View(), n, root, c);
        StartsProgress(t', d, n, root, c);
        IsListed(t', d, n, root, x);
        AttachAdds(t', d, n, c, m, x);
        ServesOne(t', View(), d, n, root, c, m, x, done);
        OnlyMovesTrans(t, t', View(), n, m);
        assert c.neighbors[m] - todo == done + {x};
      }
      assert c.neighbors[m] - {} == c.neighbors[m];
      StartsProgress(View(), d, n, root, c);
      forall x: nat | x < n && x in c.neighbors[m] && x in c.allowed && x !in visited && parent[x] != Some(m)
        ensures !Wants(View(), d, n, c, m, x)
      {
        NotWanted(View(), d, n, c, m, c.neighbors[m], x);
      }
      forall x: nat | x < n { WantsIff(View(), d, n, c, m, x); }
    }

    /** Selects the nearest allowed node not yet handled in this call, in any map order. */
    method Pick(c: Limits, local: set<nat>) returns (m: nat, repeats: bool, local': set<nat>)
      requires |distance| == n && root < n
      ensures local <= local' && m < n
      ensures forall x: nat :: x in local' && x !in local ==>
                x < n && x in c.allowed && distance[x] < UNREACHED && !c.MayBeInner(x)
      ensures repeats ==> m !in local' && m in c.allowed && distance[m] < UNREACHED && c.MayBeInner(m)
      ensures repeats ==> forall x: nat :: x < n && x in c.allowed && x !in local' ==> distance[m] <= distance[x]
      ensures !repeats ==> m == root && forall x: nat :: x < n && x in c.allowed && distance[x] < UNREACHED ==>
                x in local'
    {
      m, repeats, local' := root, false, local;
      var min := UNREACHED;
      var todo := Below(n);
      while todo != {}
        invariant todo <= Below(n) && local <= local' && m < n
        invariant todo !! local' - local
        invariant forall x: nat :: x in local' && x !in local ==>
          x < n && x in c.allowed && distance[x] < UNREACHED && !c.MayBeInner(x)
        invariant min <= UNREACHED && (min == UNREACHED ==> m == root && !repeats)
        invariant min < UNREACHED ==>
          repeats && min == distance[m] && m !in local' && m in c.allowed && m !in todo && c.MayBeInner(m)
        invariant forall x: nat :: x < n && x !in todo && x in c.allowed && x !in local' ==> min <= distance[x]
        decreases todo
      {
        var x :| x in todo;
        assert x < n;
        todo := todo - {x};
        if distance[x] < min && x in c.allowed && x !in local' {
          if !c.buildLeafs && x in c.forcedLeafs {
            local' := local' + {x};
            continue;
          }
          min := distance[x];
          m := x;
        }
        if distance[x] < UNREACHED && x in c.allowed && x !in local' {
          repeats := true;
        }
      }
    }

    /** dijkstra: terminates, keeps the tree, and succeeds exactly when every allowed node is
        reached within the depth limit. */
    method Dijkstra(c: Limits) returns (ok: bool)
      requires Valid() && |c.neighbors| == n
      requires forall u: nat, x: nat {:trigger x in c.neighbors[u]} :: u < n && x in c.neighbors[u] ==> x < n
      modifies this`visited, this`distance, this`depth, this`inTree, this`parent, this`children
      ensures Valid() && Progress(old(View()), View(), n, root, c) && root in visited
      ensures Outcome(old(View()), View(), d, n, root, c) && (ok <==> !FellShort(View(), n, c))
      // the root has been relaxed last, and no other reached node that may be inner is left unexplored
      ensures Served(View(), d, n, c, root, c.neighbors[root])
      ensures forall x: nat :: x < n && x in c.allowed && distance[x] < UNREACHED && c.MayBeInner(x) ==>
                x in visited || parent[x] == Some(root)
      ensures ok <==> forall x: nat :: x < n && x in c.allowed ==>
                distance[x] < UNREACHED && (c.failed || depth[x] <= 2)
      // a node left out of the tree is no neighbour of an explored node that had a place for it
      ensures forall m: nat, x: nat ::
                m in visited && GoesThrough(View(), n, root, c, m) && x in c.neighbors[m] && x in c.allowed ==>
                  x in inTree || |inTree| > 10 ||
                  depth[m] >= (if c.failed then 3 else 2) || 66000.0 <= distance[m] + d[m][x]
      ensures root in c.allowed && c.MayBeInner(root) && DepthAtMost(old(View()), 3) && ShortEdges(d, n) ==>
                forall x: nat :: x in inTree && x in c.allowed && c.MayBeInner(x) ==> x in visited || |inTree| > 10
      // so from scratch, with at most ten nodes, everything next to a node above the depth limit gets in
      ensures old(View()) == FreshTree(n, root) && Small(c, root) && ShortEdges(d, n) ==>
                forall y: nat, x: nat :: y in inTree && c.MayBeInner(y) && x in c.neighbors[y] && x in c.allowed ==>
                  x in inTree || depth[y] >= (if c.failed then 3 else 2)
      ensures old(View()) == FreshTree(n, root) && ShortEdges(d, n) ==>
                forall x: nat :: x in inTree ==> distance[x] < 60000.0
    {
      hide TreeInv, Progress, Served, OnlyMoves, Offered, DepthAtMost, ShortEdges, Underway, AtEnd;
      ghost var t, relaxed: set<nat> := View(), {};
      Starting(t, d, n, root, c);
      var repeats, local := true, {};
      while repeats
        invariant Underway(View(), t, d, n, root, c, local, relaxed)
        invariant !repeats ==> AtEnd(View(), t, d, n, root, c, relaxed)
        decreases repeats, Below(n) - local
      {
        repeats, local, relaxed := OnePass(c, local, t, relaxed);
      }
      Ending(View(), t, d, n, root, c, local, relaxed);
      if t == FreshTree(n, root) && ShortEdges(d, n) { FromScratch(View(), d, n, root, c); }
      ok := Checks(c);
    }

    /** Picks a node and relaxes its neighbours. */
    method OnePass(c: Limits, local: set<nat>, ghost t: Tree, ghost relaxed: set<nat>)
      returns (repeats: bool, local': set<nat>, ghost relaxed': set<nat>)
      requires Underway(View(), t, d, n, root, c, local, relaxed)
      requires forall u: nat, x: nat {:trigger x in c.neighbors[u]} ::
                 u < |c.neighbors| && x in c.neighbors[u] ==> x < n
      modifies this`visited, this`distance, this`depth, this`inTree, this`parent, this`children
      ensures Underway(View(), t, d, n, root, c, local', relaxed') && local <= local' <= Below(n)
      ensures repeats ==> local' != local
      ensures !repeats ==> AtEnd(View(), t, d, n, root, c, relaxed')
    {
      hide TreeInv, Progress, Served, OnlyMoves, Offered, DepthAtMost, ShortEdges;
      hide AtEnd, Explored, RelaxedAll, NoLatecomer;
      ghost var t0 := View();
      StartsProgress(t0, d, n, root, c);
      var m;
      m, repeats, local' := Pick(c, local);
      PickedOk(t0, d, n, root, m);
      VisitProgress(t0, d, n, root, c, m);
      visited := visited + {m};
      ghost var aside := local';
      local' := local' + {m};
      inTree := inTree + {m};
      ghost var t1 := View();
      RelaxNeighbours(c, m);
      ProgressTrans(t0, t1, View(), n, root, c);
      ProgressTrans(t, t0, View(), n, root, c);
      relaxed' := relaxed + {m};
      NewlyOffered(View(), d, n, root, c, m);
      forall y: nat | y in relaxed ensures Offered(View(), d, n, c, y) { StillOffered(t0, View(), d, n, root, c, y); }
      if !repeats {
        Finishes(t, t0, t1, View(), d, n, root, c, aside, relaxed);
      }
    }

    method Checks(c: Limits) returns (ok: bool)
      requires Valid()
      ensures ok <==> forall x: nat :: x < n && x in c.allowed ==>
                distance[x] < UNREACHED && (c.failed || depth[x] <= 2)
    {
      for x := 0 to n
        invariant forall y: nat :: y < x && y in c.allowed ==> distance[y] < UNREACHED && (c.failed || depth[y] <= 2)
      {
        if distance[x] >= UNREACHED && x in c.allowed {
          return false;
        }
        if depth[x] > 2 && x in c.allowed && !c.failed {
          return false;
        }
      }
      for x := 0 to n {
        assert ListOk(View(), n, x);
        if x in inTree && !c.failed && |children[x]| > FAN_OUT {
          return false;
        }
      }
      return true;
    }
  }

  /** What is left out of the tree although it is a neighbour of m found no place below m. */
  ghost predicate Offered(t: Tree, d: seq<seq<real>>, n: nat, c: Limits, m: nat) {
    && m < n && t.Shaped(n) && Square(d, n) && |c.neighbors| == n
    && forall x: nat :: x < n && x in c.neighbors[m] && x in c.allowed && x !in t.inTree ==>
         |t.inTree| > 10 || t.depth[m] >= (if c.failed then 3 else 2) || INITIAL <= t.distance[m] + d[m][x]
  }

  /** m is among the nodes whose neighbours a call goes through. */
  ghost predicate GoesThrough(t: Tree, n: nat, root: nat, c: Limits, m: nat) {
    m < n && |t.distance| == n && (m == root || (m in c.allowed && t.distance[m] < UNREACHED && c.MayBeInner(m)))
  }

  /** f is what a dijkstra call with these limits has made of t. */
  ghost predicate Outcome(t: Tree, f: Tree, d: seq<seq<real>>, n: nat, root: nat, c: Limits) {
    && TreeInv(f, d, n, root) && Progress(t, f, n, root, c) && root in f.visited && root < |c.neighbors|
    && Served(f, d, n, c, root, c.neighbors[root]) && Explored(f, n, root, c)
  }

  /** The call has failed: an allowed node is not reached, or too deep. */
  ghost predicate FellShort(f: Tree, n: nat, c: Limits) {
    |f.distance| == |f.depth| == n &&
    exists x: nat :: x < n && x in c.allowed && (f.distance[x] >= 60000.0 || (!c.failed && f.depth[x] > 2))
  }

  /** Every visited node that a call goes through has been relaxed in it. */
  ghost predicate RelaxedAll(t: Tree, n: nat, root: nat, c: Limits, relaxed: set<nat>) {
    forall m: nat :: m in t.visited && GoesThrough(t, n, root, c, m) ==> m in relaxed
  }

  /** Between two passes of a call that has started from t: those in local are done with, those in
      relaxed have been picked. */
  ghost predicate Underway(t': Tree, t: Tree, d: seq<seq<real>>, n: nat, root: nat, c: Limits, local: set<nat>,
                           relaxed: set<nat>) {
    && TreeInv(t', d, n, root) && Progress(t, t', n, root, c) && |c.neighbors| == n
    && local <= Below(n) && relaxed <= t'.visited
    && (forall x: nat :: x in local ==> x in relaxed || !c.MayBeInner(x))
    && (forall m: nat :: m in relaxed ==> Offered(t', d, n, c, m))
  }

  /** After the last pass. */
  ghost predicate AtEnd(t': Tree, t: Tree, d: seq<seq<real>>, n: nat, root: nat, c: Limits, relaxed: set<nat>) {
    && root in relaxed && root < |c.neighbors| && Served(t', d, n, c, root, c.neighbors[root])
    && Explored(t', n, root, c) && RelaxedAll(t', n, root, c, relaxed)
    && (root in c.allowed && c.MayBeInner(root) && DepthAtMost(t, 3) && ShortEdges(d, n) ==> NoLatecomer(t', c))
  }

  lemma Starting(t: Tree, d: seq<seq<real>>, n: nat, root: nat, c: Limits)
    requires TreeInv(t, d, n, root) && |c.neighbors| == n
    ensures Underway(t, t, d, n, root, c, {}, {})
  {
  }

  lemma Finishes(t: Tree, t0: Tree, t1: Tree, t': Tree, d: seq<seq<real>>, n: nat, root: nat, c: Limits,
                 local: set<nat>, relaxed: set<nat>)
    requires Underway(t0, t, d, n, root, c, {}, relaxed) && TreeInv(t', d, n, root)
    requires t1 == Visit(t0, root) && Progress(t0, t', n, root, c) && t'.visited == t1.visited
    requires OnlyMoves(t1, t', n, root) && t'.inTree <= t1.inTree + c.neighbors[root]
    requires Served(t', d, n, c, root, c.neighbors[root])
    requires forall x: nat :: x in local ==> x in relaxed || !c.MayBeInner(x)
    requires forall x: nat :: x < n && x in c.allowed && t0.distance[x] < UNREACHED ==> x in local
    ensures AtEnd(t', t, d, n, root, c, relaxed + {root})
  {
    hide Served, Offered, DepthAtMost, ShortEdges, TreeInv, Progress, OnlyMoves;
    RootAtZero(t0, d, n, root);
    IsExplored(t1, t', n, root, c, local);
    AllRelaxed(t0, t', n, root, c, local, relaxed + {root});
    if root in c.allowed && c.MayBeInner(root) && DepthAtMost(t, 3) && ShortEdges(d, n) {
      LastAddsNothing(t, t0, t', d, n, root, c, local, relaxed);
    }
  }

  lemma RootAtZero(t: Tree, d: seq<seq<real>>, n: nat, root: nat)
    requires TreeInv(t, d, n, root)
    ensures root < n && |t.distance| == n && t.distance[root] == 0.0
  {
  }

  /** No node that may be inner is in the tree unvisited, unless the tree is large. */
  ghost predicate NoLatecomer(t: Tree, c: Limits) {
    forall x: nat :: x in t.inTree && x in c.allowed && c.MayBeInner(x) ==> x in t.visited || |t.inTree| > 10
  }

  ghost predicate ShortEdges(d: seq<seq<real>>, n: nat) {
    Square(d, n) && forall u: nat, x: nat :: u < n && x < n ==> d[u][x] < 20000.0
  }

  /** A full child list makes a tree of eleven nodes. */
  lemma FullIsLarge(t: Tree, d: seq<seq<real>>, n: nat, root: nat, m: nat)
    requires TreeInv(t, d, n, root) && m in t.inTree && |t.children[m]| >= 10
    ensures |t.inTree| > 10
  {
    NoOwnChild(t, d, n, root, m);
    hide TreeInv;
    ListCard(t.children[m]);
    SubsetCard(Elems(t.children[m]) + {m}, t.inTree);
  }

  lemma NoOwnChild(t: Tree, d: seq<seq<real>>, n: nat, root: nat, m: nat)
    requires TreeInv(t, d, n, root) && m in t.inTree
    ensures m < n && Distinct(t.children[m]) && m !in t.children[m]
    ensures forall x :: x in t.children[m] ==> x in t.inTree
  {
    assert HangsOk(t, d, n, root, m);
    assert ListOk(t, n, m);
  }

  lemma NewlyOffered(t: Tree, d: seq<seq<real>>, n: nat, root: nat, c: Limits, m: nat)
    requires TreeInv(t, d, n, root) && m in t.visited && |c.neighbors| == n && Served(t, d, n, c, m, c.neighbors[m])
    ensures Offered(t, d, n, c, m)
  {
    if |t.children[m]| >= 10 { FullIsLarge(t, d, n, root, m); }
    forall x: nat | x < n && x in c.neighbors[m] && x in c.allowed && x !in t.inTree
      ensures |t.inTree| > 10 || t.depth[m] >= (if c.failed then 3 else 2) || INITIAL <= t.distance[m] + d[m][x]
    {
      NotWanted(t, d, n, c, m, c.neighbors[m], x);
      WantsIff(t, d, n, c, m, x);
    }
  }

  lemma StillOffered(t: Tree, t': Tree, d: seq<seq<real>>, n: nat, root: nat, c: Limits, m: nat)
    requires Offered(t, d, n, c, m) && Progress(t, t', n, root, c) && m in t.visited
    ensures Offered(t', d, n, c, m)
  {
    SubsetCard(t.inTree, t'.inTree);
  }

  lemma AllRelaxed(t: Tree, t': Tree, n: nat, root: nat, c: Limits, local: set<nat>, relaxed: set<nat>)
    requires Progress(t, t', n, root, c) && t'.visited == t.visited + {root} && root in relaxed
    requires forall x: nat :: x in local ==> x in relaxed || !c.MayBeInner(x)
    requires forall x: nat :: x < n && x in c.allowed && t.distance[x] < UNREACHED ==> x in local
    ensures RelaxedAll(t', n, root, c, relaxed)
  {
  }

  lemma Ending(t': Tree, t: Tree, d: seq<seq<real>>, n: nat, root: nat, c: Limits, local: set<nat>, relaxed: set<nat>)
    requires Underway(t', t, d, n, root, c, local, relaxed) && AtEnd(t', t, d, n, root, c, relaxed)
    ensures t'.Shaped(n) && Square(d, n) && root < n && root in t'.visited && TreeInv(t', d, n, root)
    ensures Progress(t, t', n, root, c) && Served(t', d, n, c, root, c.neighbors[root])
    ensures Explored(t', n, root, c)
    ensures forall m: nat, x: nat ::
              m in t'.visited && GoesThrough(t', n, root, c, m) && x in c.neighbors[m] && x in c.allowed && x < n &&
              x !in t'.inTree ==>
                |t'.inTree| > 10 || t'.depth[m] >= (if c.failed then 3 else 2) || 66000.0 <= t'.distance[m] + d[m][x]
    ensures root in c.allowed && c.MayBeInner(root) && DepthAtMost(t, 3) && ShortEdges(d, n) ==> NoLatecomer(t', c)
  {
    hide Served, DepthAtMost, ShortEdges, Progress, Explored, NoLatecomer;
    forall m: nat, x: nat | m in t'.visited && GoesThrough(t', n, root, c, m) && x in c.neighbors[m] && x in c.allowed
      && x < n && x !in t'.inTree
      ensures |t'.inTree| > 10 || t'.depth[m] >= (if c.failed then 3 else 2) || 66000.0 <= t'.distance[m] + d[m][x]
    {
      assert Offered(t', d, n, c, m);
    }
  }

  /** At most ten nodes are allowed, among them the root, which may be inner. */
  ghost predicate Small(c: Limits, root: nat) {
    |c.allowed| <= 10 && root in c.allowed && c.MayBeInner(root)
  }

  /** A call that starts from scratch. */
  lemma FromScratch(t: Tree, d: seq<seq<real>>, n: nat, root: nat, c: Limits)
    requires TreeInv(t, d, n, root) && ShortEdges(d, n) && |c.neighbors| == n
    requires Progress(FreshTree(n, root), t, n, root, c)
    requires forall m: nat, x: nat ::
               m in t.visited && GoesThrough(t, n, root, c, m) && x in c.neighbors[m] && x in c.allowed && x < n &&
               x !in t.inTree ==>
                 |t.inTree| > 10 || t.depth[m] >= (if c.failed then 3 else 2) || 66000.0 <= t.distance[m] + d[m][x]
    requires root in c.allowed && c.MayBeInner(root) && DepthAtMost(FreshTree(n, root), 3) ==> NoLatecomer(t, c)
    ensures DepthAtMost(FreshTree(n, root), 3)
    ensures Small(c, root) ==>
              forall y: nat, x: nat ::
                y in t.inTree && c.MayBeInner(y) && x in c.neighbors[y] && x in c.allowed && x < n ==>
                  x in t.inTree || t.depth[y] >= (if c.failed then 3 else 2)
    ensures forall x: nat :: x in t.inTree ==> t.distance[x] < UNREACHED
  {
    assert DepthAtMost(FreshTree(n, root), 3) && DepthAtMost(t, 3);
    forall x: nat | x in t.inTree ensures t.distance[x] < UNREACHED { AttachedIsReached(t, d, n, root, x); }
    hide TreeInv, DepthAtMost;
    if Small(c, root) {
      SubsetCard(t.inTree, c.allowed);
      forall y: nat, x: nat | y in t.inTree && c.MayBeInner(y) && x in c.neighbors[y] && x in c.allowed && x < n
        && x !in t.inTree
        ensures t.depth[y] >= (if c.failed then 3 else 2)
      {
        assert y in t.visited && GoesThrough(t, n, root, c, y);
        assert d[y][x] < 20000.0;
      }
    }
  }

  lemma {:induction false} DistanceBound(t: Tree, d: seq<seq<real>>, n: nat, root: nat, x: nat)
    requires TreeInv(t, d, n, root) && ShortEdges(d, n) && x in t.inTree
    ensures t.distance[x] <= 20000.0 * (t.depth[x] as real)
    ensures t.depth[x] > 0 ==> t.distance[x] < 20000.0 * (t.depth[x] as real)
    decreases t.depth[x]
  {
    assert HangsOk(t, d, n, root, x);
    if t.parent[x].Some? {
      DistanceBound(t, d, n, root, t.parent[x].value);
    }
  }

  /** With short edges whatever is attached within the depth is reached. */
  lemma AttachedIsReached(t: Tree, d: seq<seq<real>>, n: nat, root: nat, x: nat)
    requires TreeInv(t, d, n, root) && ShortEdges(d, n) && DepthAtMost(t, 3) && x in t.inTree
    ensures t.distance[x] < UNREACHED
  {
    DistanceBound(t, d, n, root, x);
  }

  /** The last pass, which relaxes the root again, attaches nothing new to a small tree. */
  lemma LastAddsNothing(t: Tree, t0: Tree, t': Tree, d: seq<seq<real>>, n: nat, root: nat, c: Limits,
                        local: set<nat>, relaxed: set<nat>)
    requires TreeInv(t0, d, n, root) && TreeInv(t', d, n, root) && ShortEdges(d, n) && DepthAtMost(t, 3)
    requires Progress(t, t0, n, root, c) && Progress(t0, t', n, root, c) && root in t'.visited
    requires root in c.allowed && c.MayBeInner(root) && root < n && root < |c.neighbors|
    requires t'.inTree <= t0.inTree + {root} + c.neighbors[root]
    requires forall x: nat :: x in local ==> x in relaxed || !c.MayBeInner(x)
    requires forall x: nat :: x < n && x in c.allowed && t0.distance[x] < UNREACHED ==> x in local
    requires relaxed <= t0.visited && (forall m: nat :: m in relaxed ==> Offered(t0, d, n, c, m))
    ensures NoLatecomer(t', c)
  {
    assert DepthAtMost(t0, 3) && t0.distance[root] < UNREACHED && root in relaxed;
    forall x: nat | x in t'.inTree && x in c.allowed && c.MayBeInner(x) && x !in t'.visited ensures |t'.inTree| > 10 {
      if x in t0.inTree {
        AttachedIsReached(t0, d, n, root, x);
      } else {
        assert Offered(t0, d, n, c, root);
        SubsetCard(t0.inTree, t'.inTree);
      }
    }
  }

  ghost predicate Explored(t: Tree, n: nat, root: nat, c: Limits) {
    |t.distance| == |t.parent| == n &&
    forall x: nat :: x < n && x in c.allowed && t.distance[x] < UNREACHED && c.MayBeInner(x) ==>
        x in t.visited || t.parent[x] == Some(root)
  }

  lemma IsExplored(t: Tree, t': Tree, n: nat, root: nat, c: Limits, local: set<nat>)
    requires OnlyMoves(t, t', n, root) && t'.visited == t.visited
    requires forall x: nat :: x in local ==> x in t.visited || !c.MayBeInner(x)
    requires forall x: nat :: x < n && x in c.allowed && t.distance[x] < UNREACHED ==> x in local
    ensures Explored(t', n, root, c)
  {
  }

  lemma StartsProgress(t: Tree, d: seq<seq<real>>, n: nat, root: nat, c: Limits)
    requires TreeInv(t, d, n, root)
    ensures t.Shaped(n) && root < n && Square(d, n) && Progress(t, t, n, root, c)
  {
  }

  /** The picked node is attached, or it is the root; on an empty tree it is the root. */
  lemma PickedOk(t: Tree, d: seq<seq<real>>, n: nat, root: nat, m: nat)
    requires TreeInv(t, d, n, root) && m < n && (m == root || t.distance[m] < UNREACHED)
    ensures m in t.inTree || m == root
    ensures t.inTree == {} ==> m == root
  {
  }

  const CHAIN: seq<seq<real>> := [[0.0, 10.0, 20.0], [10.0, 0.0, 10.0], [20.0, 10.0, 0.0]]

  /** Three nodes in a row, searched from one end with a radius of 50. */
  function ChainLimits(): Limits {
    Limits([{1}, {0, 2}, {1}], {0, 1, 2}, {}, true, 50.0, false)
  }

  /** The chain is built, with the far end on the second level. */
  method BuildChain() returns (ok: bool, depth: seq<nat>)
    ensures ok && depth == [0, 1, 2]
  {
    hide TreeInv, Progress, Served, DepthAtMost, ShortEdges, Small, GoesThrough;
    ChainIsSmall();
    var b := new Builder(3, 0, CHAIN);
    ok := b.Dijkstra(ChainLimits());
    ChainTree(b.View());
    depth := b.depth;
  }

  lemma ChainIsSmall()
    ensures Square(CHAIN, 3) && ShortEdges(CHAIN, 3) && Small(ChainLimits(), 0) && |ChainLimits().neighbors| == 3
  {
    SubsetCard(ChainLimits().allowed, Below(3));
  }

  lemma ChainTree(t: Tree)
    requires TreeInv(t, CHAIN, 3, 0) && 0 in t.visited
    requires Progress(FreshTree(3, 0), t, 3, 0, ChainLimits())
    requires forall y: nat, x: nat :: y in t.inTree && y < 3 && x in ChainLimits().neighbors[y] && x < 3 ==>
               x in t.inTree || t.depth[y] >= 2
    ensures t.inTree == {0, 1, 2} && t.depth == [0, 1, 2]
  {
    var nb := ChainLimits().neighbors;
    assert 0 in t.inTree && 1 in nb[0];
    assert HangsOk(t, CHAIN, 3, 0, 1);
    assert HangsOnEdge(t, nb, 1);
    assert 2 in nb[1];
    assert 2 in t.inTree;
    assert HangsOk(t, CHAIN, 3, 0, 2);
    assert HangsOnEdge(t, nb, 2);
  }
}
