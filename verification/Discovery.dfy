/**
 In which order a depth-first search discovers nodes, as a function of the order in which the
 children of each node come.
 */
module Discovery {
  import opened Sets
  import opened Walks

  /** For every node its neighbours, each once, in the order in which the map yields them. */
  ghost predicate IsOrder(adj: seq<set<nat>>, order: seq<seq<nat>>) {
    && |order| == |adj|
    && (forall v: nat :: v < |adj| ==> Distinct(order[v]))
    && (forall v: nat, w: nat {:trigger w in order[v]} :: v < |adj| ==> (w in order[v] <==> w in adj[v]))
  }

  /** Every name in the lists stands for a node. */
  ghost predicate Named(order: seq<seq<nat>>) {
    forall v: nat, i: nat :: v < |order| && i < |order[v]| ==> order[v][i] < |order|
  }

  /** A graph, an order of the children and a node to start from. */
  ghost predicate Usable(adj: seq<set<nat>>, order: seq<seq<nat>>, root: nat) {
    Undirected(adj) && IsOrder(adj, order) && Named(order) && root < |order|
  }

  lemma OrderNamed(adj: seq<set<nat>>, order: seq<seq<nat>>)
    requires Undirected(adj) && IsOrder(adj, order)
    ensures Named(order)
  {
    forall v: nat, i: nat | v < |order| && i < |order[v]| ensures order[v][i] < |order| {
      assert order[v][i] in order[v];
    }
  }

  lemma Joined(a: seq<nat>, b: seq<nat>)
    requires Distinct(a) && Distinct(b) && Elems(a) !! Elems(b)
    ensures Distinct(a + b) && Elems(a + b) == Elems(a) + Elems(b)
  {
    forall i, j | 0 <= i < j < |a + b| ensures (a + b)[i] != (a + b)[j] {
      if i < |a| <= j { assert a[i] in Elems(a) && b[j - |a|] in Elems(b); }
    }
  }

  /** What has not been seen yet. */
  ghost function Unseen(n: nat, seen: seq<nat>): set<nat> {
    Below(n) - Elems(seen)
  }

  lemma UnseenShrinks(n: nat, seen: seq<nat>, more: seq<nat>)
    requires seen <= more
    ensures |Unseen(n, more)| <= |Unseen(n, seen)|
    ensures forall a :: a < n && a !in seen && a in more ==> |Unseen(n, more)| < |Unseen(n, seen)|
  {
    SubsetCard(Unseen(n, more), Unseen(n, seen));
    forall a | a < n && a !in seen && a in more ensures |Unseen(n, more)| < |Unseen(n, seen)| {
      assert a in Unseen(n, seen) && a !in Unseen(n, more);
    }
  }

  /** recursive(a): what has been seen afterwards, in order of discovery. */
  ghost function Discover(order: seq<seq<nat>>, a: nat, seen: seq<nat>): (r: seq<nat>)
    requires Named(order) && a < |order| && a !in seen
    ensures seen + [a] <= r && a in r
    decreases |Unseen(|order|, seen)|, 0, 0
  {
    UnseenShrinks(|order|, seen, seen + [a]);
    assert (seen + [a])[|seen|] == a;
    Scan(order, a, 0, seen + [a])
  }

  /** The loop over the children of a from the i-th on. */
  ghost function Scan(order: seq<seq<nat>>, a: nat, i: nat, seen: seq<nat>): (r: seq<nat>)
    requires Named(order) && a < |order| && i <= |order[a]|
    ensures seen <= r
    decreases |Unseen(|order|, seen)|, 1, |order[a]| - i
  {
    if i == |order[a]| then seen
    else
      var seen' := ScanOne(order, a, i, seen);
      UnseenShrinks(|order|, seen, seen');
      Scan(order, a, i + 1, seen')
  }

  /** One child: discovered with everything below it, unless it has been seen. */
  ghost function ScanOne(order: seq<seq<nat>>, a: nat, i: nat, seen: seq<nat>): (r: seq<nat>)
    requires Named(order) && a < |order| && i < |order[a]|
    ensures seen <= r && order[a][i] in r
    decreases |Unseen(|order|, seen)|, 1, 0
  {
    var c := order[a][i];
    if c in seen then seen else Discover(order, c, seen)
  }

  // ---------------------------------------------------------------- what a call adds

  ghost predicate ReachFrom(adj: seq<set<nat>>, V: set<nat>, starts: set<nat>, x: nat) {
    exists c :: c in starts && Reach(adj, V, c, x)
  }

  /** What is added to seen: each node once, only nodes that a start reaches through unseen ones, and
      with each node all its neighbours. */
  ghost predicate Adds(adj: seq<set<nat>>, starts: set<nat>, seen: seq<nat>, r: seq<nat>) {
    && seen <= r
    && (Distinct(seen) ==> Distinct(r))
    && (forall x :: x in r && x !in seen ==> ReachFrom(adj, Unseen(|adj|, seen), starts, x))
    && (forall x :: x in r && x !in seen ==> x < |adj| && adj[x] <= Elems(r))
  }

  lemma AddsTrans(adj: seq<set<nat>>, starts: set<nat>, seen: seq<nat>, mid: seq<nat>, r: seq<nat>)
    requires Adds(adj, starts, seen, mid) && Adds(adj, starts, mid, r)
    ensures Adds(adj, starts, seen, r)
  {
    forall x | x in r && x !in seen ensures ReachFrom(adj, Unseen(|adj|, seen), starts, x) {
      if x !in mid {
        var c :| c in starts && Reach(adj, Unseen(|adj|, mid), c, x);
        ReachMono(adj, Unseen(|adj|, mid), Unseen(|adj|, seen), c, x);
      }
    }
    assert Elems(mid) <= Elems(r);
  }

  lemma AddsFrom(adj: seq<set<nat>>, c: nat, starts: set<nat>, seen: seq<nat>, r: seq<nat>)
    requires Adds(adj, {c}, seen, r) && c in starts
    ensures Adds(adj, starts, seen, r)
  {
    forall x | x in r && x !in seen ensures ReachFrom(adj, Unseen(|adj|, seen), starts, x) {
      assert ReachFrom(adj, Unseen(|adj|, seen), {c}, x);
    }
  }

  lemma {:induction false} ScanAdds(adj: seq<set<nat>>, order: seq<seq<nat>>, a: nat, i: nat, seen: seq<nat>)
    requires Undirected(adj) && IsOrder(adj, order) && Named(order) && a < |order| == |adj| && i <= |order[a]|
    ensures Adds(adj, adj[a], seen, Scan(order, a, i, seen))
    ensures forall j :: i <= j < |order[a]| ==> order[a][j] in Scan(order, a, i, seen)
    decreases |Unseen(|order|, seen)|, 1, |order[a]| - i
  {
    hide Adds, IsOrder, Undirected, Named, Elems;
    AddsNothing(adj, adj[a], seen);
    if i < |order[a]| {
      var c, mid := order[a][i], ScanOne(order, a, i, seen);
      UnseenShrinks(|order|, seen, mid);
      InOrder(adj, order, a, i);
      if c !in seen {
        DiscoverAdds(adj, order, c, seen);
        AddsFrom(adj, c, adj[a], seen, mid);
      }
      ScanAdds(adj, order, a, i + 1, mid);
      AddsTrans(adj, adj[a], seen, mid, Scan(order, a, i, seen));
    }
  }

  lemma AddsNothing(adj: seq<set<nat>>, starts: set<nat>, seen: seq<nat>)
    ensures Adds(adj, starts, seen, seen)
  {
  }

  lemma InOrder(adj: seq<set<nat>>, order: seq<seq<nat>>, a: nat, i: nat)
    requires Undirected(adj) && IsOrder(adj, order) && a < |order| && i < |order[a]|
    ensures |order| == |adj| && order[a][i] < |adj| && order[a][i] in adj[a] && a in adj[order[a][i]]
  {
    assert order[a][i] in order[a];
  }

  lemma {:induction false} DiscoverAdds(adj: seq<set<nat>>, order: seq<seq<nat>>, a: nat, seen: seq<nat>)
    requires Undirected(adj) && IsOrder(adj, order) && Named(order) && a < |order| && a !in seen
    ensures Adds(adj, {a}, seen, Discover(order, a, seen))
    decreases |Unseen(|order|, seen)|, 0, 0
  {
    var r := Discover(order, a, seen);
    UnseenShrinks(|order|, seen, seen + [a]);
    ScanAdds(adj, order, a, 0, seen + [a]);
    assert adj[a] <= Elems(r) by {
      forall c | c in adj[a] ensures c in r {
        assert c in order[a];
        var j :| 0 <= j < |order[a]| && order[a][j] == c;
      }
    }
    AddsStart(adj, a, seen, r);
  }

  lemma AddsStart(adj: seq<set<nat>>, a: nat, seen: seq<nat>, r: seq<nat>)
    requires a < |adj| && a !in seen && Adds(adj, adj[a], seen + [a], r) && adj[a] <= Elems(r)
    ensures Adds(adj, {a}, seen, r)
  {
    var V, W := Unseen(|adj|, seen), Unseen(|adj|, seen + [a]);
    ReachSelf(adj, V, a);
    forall x | x in r && x !in seen ensures Reach(adj, V, a, x) {
      if x != a {
        var c :| c in adj[a] && Reach(adj, W, c, x);
        ReachMono(adj, W, V, c, x);
        var p :| Walk(adj, V, p, c, x);
        ReachEdge(adj, V, a, c);
        ReachTrans(adj, V, a, c, x);
      }
    }
  }

  /** The children of a from the i-th up to the m-th. */
  ghost function ScanTo(order: seq<seq<nat>>, a: nat, i: nat, m: nat, seen: seq<nat>): (r: seq<nat>)
    requires Named(order) && a < |order| && i <= m <= |order[a]|
    ensures seen <= r
    decreases m - i
  {
    if i == m then seen else ScanTo(order, a, i + 1, m, ScanOne(order, a, i, seen))
  }

  lemma {:induction false} ScanSplits(order: seq<seq<nat>>, a: nat, i: nat, m: nat, seen: seq<nat>)
    requires Named(order) && a < |order| && i <= m <= |order[a]|
    ensures Scan(order, a, i, seen) == Scan(order, a, m, ScanTo(order, a, i, m, seen))
    decreases m - i
  {
    if i < m { ScanSplits(order, a, i + 1, m, ScanOne(order, a, i, seen)); }
  }

  lemma {:induction false} ScanToAdds(adj: seq<set<nat>>, order: seq<seq<nat>>, a: nat, i: nat, m: nat,
                                      starts: set<nat>, seen: seq<nat>)
    requires Undirected(adj) && IsOrder(adj, order) && Named(order) && a < |order| && i <= m <= |order[a]|
    requires forall j :: i <= j < m ==> order[a][j] in starts
    ensures Adds(adj, starts, seen, ScanTo(order, a, i, m, seen))
    ensures forall j :: i <= j < m ==> order[a][j] in ScanTo(order, a, i, m, seen)
    decreases m - i
  {
    hide Adds, IsOrder, Undirected;
    AddsNothing(adj, starts, seen);
    if i < m {
      var c, mid := order[a][i], ScanOne(order, a, i, seen);
      if c !in seen {
        DiscoverAdds(adj, order, c, seen);
        AddsFrom(adj, c, starts, seen, mid);
      }
      ScanToAdds(adj, order, a, i + 1, m, starts, mid);
      AddsTrans(adj, starts, seen, mid, ScanTo(order, a, i, m, seen));
    }
  }

  /** A search finds exactly what it can reach through unseen nodes. */
  lemma WhitePath(adj: seq<set<nat>>, order: seq<seq<nat>>, a: nat, seen: seq<nat>, x: nat)
    requires Undirected(adj) && IsOrder(adj, order) && Named(order) && a < |order| && a !in seen && x !in seen
    ensures x in Discover(order, a, seen) <==> Reach(adj, Unseen(|adj|, seen), a, x)
  {
    var r, V := Discover(order, a, seen), Unseen(|adj|, seen);
    DiscoverAdds(adj, order, a, seen);
    if x in r {
      var c :| c in {a} && Reach(adj, V, c, x);
    }
    if Reach(adj, V, a, x) {
      var p :| Walk(adj, V, p, a, x);
      WalkFound(adj, a, seen, r, p, x);
    }
  }

  lemma {:induction false} WalkFound(adj: seq<set<nat>>, a: nat, seen: seq<nat>, r: seq<nat>, p: seq<nat>, x: nat)
    requires Adds(adj, {a}, seen, r) && a in r && Walk(adj, Unseen(|adj|, seen), p, a, x)
    ensures x in r
    decreases |p|
  {
    if |p| > 1 {
      var q, y := p[..|p| - 1], p[|p| - 2];
      forall i | 0 <= i < |q| - 1 ensures Step(adj, q, i) { assert Step(adj, p, i); }
      WalkFound(adj, a, seen, r, q, y);
      assert Step(adj, p, |p| - 2);
    }
  }

  // ---------------------------------------------------------------- every node next to an earlier one

  ghost predicate HasEarlier(adj: seq<set<nat>>, s: seq<nat>, k: nat) {
    exists j :: 0 <= j < k < |s| && s[j] < |adj| && s[k] in adj[s[j]]
  }

  /** From the given position on every node has an earlier neighbour. */
  ghost predicate LinkedFrom(adj: seq<set<nat>>, s: seq<nat>, from: nat) {
    forall k: nat :: from <= k < |s| ==> HasEarlier(adj, s, k)
  }

  lemma {:induction false} ScanLinked(adj: seq<set<nat>>, order: seq<seq<nat>>, a: nat, i: nat, seen: seq<nat>)
    requires Undirected(adj) && IsOrder(adj, order) && Named(order) && a < |order| && i <= |order[a]| && a in seen
    ensures LinkedFrom(adj, Scan(order, a, i, seen), |seen|)
    decreases |Unseen(|order|, seen)|, 1, |order[a]| - i
  {
    if i < |order[a]| {
      hide IsOrder, Undirected, HasEarlier;
      var c, mid := order[a][i], ScanOne(order, a, i, seen);
      UnseenShrinks(|order|, seen, mid);
      if c !in seen {
        InOrder(adj, order, a, i);
        DiscoverLinked(adj, order, c, seen);
        NextTo(adj, mid, seen, a, c);
      }
      ScanLinked(adj, order, a, i + 1, mid);
      LinkedPrefix(adj, mid, Scan(order, a, i, seen), |seen|);
    }
  }

  lemma NextTo(adj: seq<set<nat>>, s: seq<nat>, seen: seq<nat>, a: nat, c: nat)
    requires seen + [c] <= s && a in seen && a < |adj| && c in adj[a]
    ensures HasEarlier(adj, s, |seen|)
  {
    var j :| 0 <= j < |seen| && seen[j] == a;
    assert s[j] == a && s[|seen|] == c;
  }

  lemma LinkedPrefix(adj: seq<set<nat>>, s: seq<nat>, r: seq<nat>, from: nat)
    requires s <= r && LinkedFrom(adj, s, from) && LinkedFrom(adj, r, |s|)
    ensures LinkedFrom(adj, r, from)
  {
    forall k: nat | from <= k < |r| ensures HasEarlier(adj, r, k) {
      if k < |s| {
        assert HasEarlier(adj, s, k);
        var j :| 0 <= j < k < |s| && s[j] < |adj| && s[k] in adj[s[j]];
        assert r[j] == s[j] && r[k] == s[k];
      }
    }
  }

  lemma {:induction false} DiscoverLinked(adj: seq<set<nat>>, order: seq<seq<nat>>, a: nat, seen: seq<nat>)
    requires Undirected(adj) && IsOrder(adj, order) && Named(order) && a < |order| && a !in seen
    ensures LinkedFrom(adj, Discover(order, a, seen), |seen| + 1)
    decreases |Unseen(|order|, seen)|, 0, 0
  {
    UnseenShrinks(|order|, seen, seen + [a]);
    ScanLinked(adj, order, a, 0, seen + [a]);
  }

  // ---------------------------------------------------------------- the whole search

  /** Everything the search from root discovers. */
  ghost function Found(order: seq<seq<nat>>, root: nat): (r: seq<nat>)
    requires Named(order) && root < |order|
    ensures r != [] && r[0] == root
  {
    Discover(order, root, [])
  }

  ghost function LastOf(s: seq<nat>): nat {
    if s == [] then 0 else s[|s| - 1]
  }

  ghost function Last(order: seq<seq<nat>>, root: nat): nat
    requires Named(order) && root < |order|
  {
    LastOf(Found(order, root))
  }

  lemma FoundFacts(adj: seq<set<nat>>, order: seq<seq<nat>>, root: nat)
    requires Usable(adj, order, root)
    ensures Distinct(Found(order, root)) && LinkedFrom(adj, Found(order, root), 1)
    ensures forall x :: x in Found(order, root) <==> Reach(adj, Below(|adj|), root, x)
  {
    assert Unseen(|adj|, []) == Below(|adj|);
    DiscoverAdds(adj, order, root, []);
    DiscoverLinked(adj, order, root, []);
    forall x ensures x in Found(order, root) <==> Reach(adj, Below(|adj|), root, x) {
      WhitePath(adj, order, root, [], x);
    }
  }
}
