/**
 Sums over the dynamic tree.  Both rounds of BFTCoSi add up commitments and responses along the
 parent pointers the echo phase has set.
 */
module Aggregation {
  import opened Sets
  import opened Locality
  import opened Group

  /** The sum of f over the members of S below k. */
  ghost function SumIn(g: Abelian, f: seq<Point>, S: set<nat>, k: nat): Point
    requires k <= |f|
  {
    if k == 0 then g.zero
    else if k - 1 in S then g.add(SumIn(g, f, S, k - 1), f[k - 1])
    else SumIn(g, f, S, k - 1)
  }

  lemma ZeroLeft(g: Abelian, a: Point)
    requires g.Laws()
    ensures g.add(g.zero, a) == a
  {
    assert g.Commutes(g.zero, a) && g.Unit(a);
  }

  /** (a + b) + c = (a + c) + b */
  lemma SwapLast(g: Abelian, a: Point, b: Point, c: Point)
    requires g.Laws()
    ensures g.add(g.add(a, b), c) == g.add(g.add(a, c), b)
  {
    assert g.Associates(a, b, c) && g.Commutes(b, c) && g.Associates(a, c, b);
  }

  lemma {:induction false} SumDisjoint(g: Abelian, f: seq<Point>, A: set<nat>, B: set<nat>, k: nat)
    requires g.Laws() && k <= |f| && A !! B
    ensures SumIn(g, f, A + B, k) == g.add(SumIn(g, f, A, k), SumIn(g, f, B, k))
  {
    if k == 0 {
      ZeroLeft(g, g.zero);
    } else {
      SumDisjoint(g, f, A, B, k - 1);
      var a, b, x := SumIn(g, f, A, k - 1), SumIn(g, f, B, k - 1), f[k - 1];
      if k - 1 in A {
        SwapLast(g, a, b, x);
      } else if k - 1 in B {
        assert g.Associates(a, b, x);
      }
    }
  }

  lemma {:induction false} SumEmpty(g: Abelian, f: seq<Point>, S: set<nat>, k: nat)
    requires k <= |f| && forall i :: 0 <= i < k ==> i !in S
    ensures SumIn(g, f, S, k) == g.zero
  {
    if k > 0 { SumEmpty(g, f, S, k - 1); }
  }

  lemma {:induction false} SumSingle(g: Abelian, f: seq<Point>, v: nat, k: nat)
    requires g.Laws() && v < k <= |f|
    ensures SumIn(g, f, {v}, k) == f[v]
  {
    if k - 1 == v {
      SumEmpty(g, f, {v}, v);
      ZeroLeft(g, f[v]);
    } else {
      SumSingle(g, f, v, k - 1);
    }
  }

  /** A tree given by parents, depths and, for each node, its children in the order they reported. */
  datatype Tree = Tree(root: nat, parent: seq<Option<nat>>, depth: seq<nat>, children: seq<seq<nat>>)
  {
    function N(): nat { |parent| }

    ghost predicate Ok() {
      && root < N() && |depth| == |children| == N() && parent[root] == None
      && (forall v: nat :: v < N() && v != root ==> parent[v].Some?)
      && (forall v: nat :: v < N() && parent[v].Some? ==>
          parent[v].value < N() && depth[v] == depth[parent[v].value] + 1)
      && (forall v: nat, w: nat {:trigger w in children[v]} :: v < N() ==>
          (w in children[v] <==> w < N() && parent[w] == Some(v)))
      && (forall v: nat, i: nat, j: nat {:trigger children[v][i], children[v][j]} ::
          v < N() && i < j < |children[v]| ==> children[v][i] != children[v][j])
    }
  }

  /** x lies in the subtree of v. */
  ghost predicate Under(t: Tree, x: nat, v: nat)
    requires t.Ok() && x < t.N()
    decreases t.depth[x]
  {
    x == v || (t.parent[x].Some? && Under(t, t.parent[x].value, v))
  }

  ghost function Subtree(t: Tree, v: nat): set<nat>
    requires t.Ok()
  {
    set x: nat | x in Below(t.N()) && Under(t, x, v)
  }

  lemma {:induction false} UnderDeeper(t: Tree, x: nat, v: nat)
    requires t.Ok() && x < t.N() && v < t.N() && Under(t, x, v)
    ensures t.depth[x] >= t.depth[v]
    decreases t.depth[x]
  {
    if x != v { UnderDeeper(t, t.parent[x].value, v); }
  }

  /** Two different nodes of the same depth have disjoint subtrees. */
  lemma {:induction false} UnderUnique(t: Tree, x: nat, c: nat, c': nat)
    requires t.Ok() && x < t.N() && c < t.N() && c' < t.N() && t.depth[c] == t.depth[c']
    requires Under(t, x, c) && Under(t, x, c')
    ensures c == c'
    decreases t.depth[x]
  {
    if x == c {
      if x != c' { UnderDeeper(t, t.parent[x].value, c'); }
    } else if x == c' {
      UnderDeeper(t, t.parent[x].value, c);
    } else {
      UnderUnique(t, t.parent[x].value, c, c');
    }
  }

  lemma {:induction false} EveryoneUnderRoot(t: Tree, x: nat)
    requires t.Ok() && x < t.N()
    ensures Under(t, x, t.root)
    decreases t.depth[x]
  {
    if x != t.root { EveryoneUnderRoot(t, t.parent[x].value); }
  }

  /** A proper descendant of v lies under exactly one child of v. */
  lemma {:induction false} UnderChild(t: Tree, x: nat, v: nat)
    requires t.Ok() && x < t.N() && v < t.N() && Under(t, x, v) && x != v
    ensures exists c :: c in t.children[v] && c < t.N() && Under(t, x, c)
    decreases t.depth[x]
  {
    var p := t.parent[x].value;
    if p == v {
      assert x in t.children[v];
    } else {
      UnderChild(t, p, v);
      var c :| c in t.children[v] && c < t.N() && Under(t, p, c);
      assert Under(t, x, c);
    }
  }

  lemma {:induction false} ChildUnder(t: Tree, x: nat, v: nat, c: nat)
    requires t.Ok() && x < t.N() && v < t.N() && c in t.children[v] && c < t.N() && Under(t, x, c)
    ensures Under(t, x, v) && x != v
    decreases t.depth[x]
  {
    UnderDeeper(t, x, c);
    if x != c { ChildUnder(t, t.parent[x].value, v, c); }
  }

  /** The subtrees of the first k children. */
  ghost function Branches(t: Tree, v: nat, k: nat): set<nat>
    requires t.Ok() && v < t.N() && k <= |t.children[v]|
  {
    if k == 0 then {} else Branches(t, v, k - 1) + Subtree(t, t.children[v][k - 1])
  }

  lemma {:induction false} BranchMember(t: Tree, v: nat, k: nat, x: nat)
    requires t.Ok() && v < t.N() && k <= |t.children[v]|
    ensures x in Branches(t, v, k) <==> exists i :: 0 <= i < k && x in Subtree(t, t.children[v][i])
  {
    if k > 0 { BranchMember(t, v, k - 1, x); }
  }

  lemma SubtreeSplit(t: Tree, v: nat)
    requires t.Ok() && v < t.N()
    ensures Subtree(t, v) == {v} + Branches(t, v, |t.children[v]|) && v !in Branches(t, v, |t.children[v]|)
  {
    var k := |t.children[v]|;
    forall x ensures x in Subtree(t, v) <==> x == v || x in Branches(t, v, k)
      ensures x in Branches(t, v, k) ==> x != v
    {
      BranchMember(t, v, k, x);
      if x in Subtree(t, v) && x != v {
        UnderChild(t, x, v);
        var c :| c in t.children[v] && c < t.N() && Under(t, x, c);
        var i :| 0 <= i < k && t.children[v][i] == c;
        assert x in Subtree(t, t.children[v][i]);
      }
      if x in Branches(t, v, k) {
        var i :| 0 <= i < k && x in Subtree(t, t.children[v][i]);
        assert t.children[v][i] in t.children[v];
        ChildUnder(t, x, v, t.children[v][i]);
      }
    }
  }

  lemma BranchesApart(t: Tree, v: nat, k: nat)
    requires t.Ok() && v < t.N() && k < |t.children[v]|
    ensures Branches(t, v, k) !! Subtree(t, t.children[v][k])
  {
    forall x | x in Branches(t, v, k) && x in Subtree(t, t.children[v][k]) ensures false {
      BranchMember(t, v, k, x);
      var i :| 0 <= i < k && x in Subtree(t, t.children[v][i]);
      assert t.children[v][i] in t.children[v] && t.children[v][k] in t.children[v];
      UnderUnique(t, x, t.children[v][i], t.children[v][k]);
    }
  }

  ghost function Reported(t: Tree, agg: seq<Point>, v: nat): seq<Point>
    requires t.Ok() && v < t.N() && |agg| == t.N()
  {
    seq(|t.children[v]|, i requires 0 <= i < |t.children[v]| =>
        (assert t.children[v][i] in t.children[v]; agg[t.children[v][i]]))
  }

  /** Every node's value is its own share plus what its children reported. */
  ghost predicate AddsUp(g: Abelian, t: Tree, share: seq<Point>, agg: seq<Point>)
    requires t.Ok() && |agg| == |share| == t.N()
  {
    forall v: nat :: v < t.N() ==> agg[v] == g.add(share[v], g.Sum(Reported(t, agg, v)))
  }

  /** What a node reports is the sum of the shares of exactly the nodes of its subtree. */
  lemma {:induction false} SubtreeSum(g: Abelian, t: Tree, share: seq<Point>, agg: seq<Point>, v: nat)
    requires g.Laws() && t.Ok() && |agg| == |share| == t.N() && AddsUp(g, t, share, agg) && v < t.N()
    ensures agg[v] == SumIn(g, share, Subtree(t, v), t.N())
    decreases Highest(t.depth) - t.depth[v], 1, 0
  {
    var k := |t.children[v]|;
    BranchSum(g, t, share, agg, v, k);
    assert Reported(t, agg, v)[..k] == Reported(t, agg, v);
    SubtreeSplit(t, v);
    SumDisjoint(g, share, {v}, Branches(t, v, k), t.N());
    SumSingle(g, share, v, t.N());
  }

  lemma {:induction false} BranchSum(g: Abelian, t: Tree, share: seq<Point>, agg: seq<Point>, v: nat, k: nat)
    requires g.Laws() && t.Ok() && |agg| == |share| == t.N() && AddsUp(g, t, share, agg) && v < t.N()
    requires k <= |t.children[v]|
    ensures g.Sum(Reported(t, agg, v)[..k]) == SumIn(g, share, Branches(t, v, k), t.N())
    decreases Highest(t.depth) - t.depth[v], 0, k
  {
    hide SumIn, Subtree, AddsUp;
    if k == 0 {
      SumEmpty(g, share, {}, t.N());
    } else {
      var c := t.children[v][k - 1];
      ChildIsNode(t, v, k - 1);
      BranchSum(g, t, share, agg, v, k - 1);
      SubtreeSum(g, t, share, agg, c);
      BranchesApart(t, v, k - 1);
      SumDisjoint(g, share, Branches(t, v, k - 1), Subtree(t, c), t.N());
      SumOneMore(g, Reported(t, agg, v), k - 1);
    }
  }

  lemma ChildIsNode(t: Tree, v: nat, i: nat)
    requires t.Ok() && v < t.N() && i < |t.children[v]|
    ensures t.children[v][i] < t.N() && t.depth[t.children[v][i]] == t.depth[v] + 1
  {
    assert t.children[v][i] in t.children[v];
  }

  lemma SumOneMore(g: Abelian, r: seq<Point>, k: nat)
    requires k < |r|
    ensures g.Sum(r[..k + 1]) == g.add(g.Sum(r[..k]), r[k])
  {
    assert r[..k + 1][..k] == r[..k];
  }

  /** The root's value is the sum over all nodes, each counted once. */
  lemma RootSum(g: Abelian, t: Tree, share: seq<Point>, agg: seq<Point>)
    requires g.Laws() && t.Ok() && |agg| == |share| == t.N() && AddsUp(g, t, share, agg)
    ensures agg[t.root] == SumIn(g, share, Below(t.N()), t.N())
  {
    SubtreeSum(g, t, share, agg, t.root);
    forall x | x in Below(t.N()) ensures x in Subtree(t, t.root) { EveryoneUnderRoot(t, x); }
    assert Subtree(t, t.root) == Below(t.N());
  }
}
