/**
 What the link removal of RemoveLinks keeps, and what that says about the pruned graph.
 */
module Pruning {
  import opened Sets
  import opened Walks
  import opened Locality
  import opened ShortestWalks
  import opened Discovery
  import opened Bridges

  /** GetChildren for every node: the union of its remaining bunch and cluster. */
  function Links(g: Graph): (adj: seq<set<nat>>)
    requires |g.optBunch| == |g.optCluster| == g.N()
    ensures |adj| == g.N()
  {
    seq(g.N(), i requires 0 <= i < g.N() => g.optBunch[i] + g.optCluster[i])
  }

  /** b is in a's remaining bunch exactly when a is in b's remaining cluster. */
  ghost predicate Dual(g: Graph) {
    && g.Shaped()
    && (forall a: nat, b: nat {:trigger b in g.optBunch[a]} :: a < g.N() && b < g.N() && b in g.optBunch[a] ==>
        a in g.optCluster[b])
    && (forall a: nat, b: nat {:trigger a in g.optCluster[b]} :: a < g.N() && b < g.N() && a in g.optCluster[b] ==>
        b in g.optBunch[a])
  }

  /** No node ever loses a pivot from its remaining bunch. */
  ghost predicate PivotsKept(g: Graph) {
    && g.Shaped()
    && forall a: nat, i: nat :: a < g.N() && i < |g.pDist[a]| && g.pDist[a][i].Some? && g.pDist[a][i].value != a
         ==> g.pDist[a][i].value in g.optBunch[a]
  }

  ghost predicate Loopless(g: Graph) {
    g.Shaped() && forall a: nat :: a < g.N() ==> a !in g.optBunch[a]
  }

  /** The invariant of the whole pruning run. */
  ghost predicate Prunable(g: Graph) {
    && Dual(g) && PivotsKept(g) && Loopless(g)
    && Distances(g.cbd, g.N()) && NeverUnder(g.cbd, g.d, g.N())
  }

  lemma BuiltIsPrunable(g: Graph, levels: nat)
    requires Built(g, levels) && LevelsOk(g, levels) && Metric(g.d, g.N()) && levels >= 2
    ensures Prunable(g)
  {
    forall a: nat, i: nat | a < g.N() && i < |g.pDist[a]| && g.pDist[a][i] != Some(a)
      ensures g.pDist[a][i].Some? && g.pDist[a][i].value in g.optBunch[a]
    {
      PivotInBunch(g, levels, a, i);
    }
    forall u: nat, v: nat | u < g.N() && v < g.N()
      ensures g.cbd[u][v] == g.cbd[v][u]
      ensures g.cbd[u][v].Fin? ==> 0.0 <= g.d[u][v] <= g.cbd[u][v].v
    {
      Triangle(g.d, g.N(), u, v, u);
    }
    assert Dual(g) by { BuiltDual(g, levels); }
    assert Loopless(g) by { BuiltDual(g, levels); }
  }

  lemma BuiltDual(g: Graph, levels: nat)
    requires Built(g, levels)
    ensures Dual(g) && Loopless(g)
  {
    forall a: nat | a < g.N() ensures a !in g.optBunch[a] {
      assert !AdmittedBefore(g.level, g.d[a], g.aDist[a], a, a, levels - 1);
    }
  }

  lemma LinksUndirected(g: Graph)
    requires Dual(g) && Loopless(g)
    ensures Undirected(Links(g))
  {
    var adj := Links(g);
    forall u: nat, v: nat | u < |adj| && v in adj[u] ensures v < |adj| && v != u && u in adj[v] {
      if v in g.optBunch[u] {
        assert u in g.optCluster[v];
      } else {
        assert v in g.optCluster[u];
        assert u in g.optBunch[v];
      }
    }
  }

  /** Dropping b from a's bunch, a from b's cluster, and their direct distance. */
  ghost predicate Dropped(g: Graph, g': Graph, a: nat, b: nat) {
    && g.Shaped() && a < g.N() && b < g.N()
    && g' == g.(optBunch := g.optBunch[a := g.optBunch[a] - {b}],
                optCluster := g.optCluster[b := g.optCluster[b] - {a}], cbd := g'.cbd)
    && Square(g'.cbd, g.N())
    && forall u: nat, v: nat {:trigger g'.cbd[u][v]} :: u < g.N() && v < g.N() ==>
         g'.cbd[u][v] == if (u == a && v == b) || (u == b && v == a) then Inf else g.cbd[u][v]
  }

  /** A removal step of either loop; b is not one of a's pivots. */
  lemma DropKeeps(g: Graph, g': Graph, a: nat, b: nat)
    requires Prunable(g) && Dropped(g, g', a, b) && a != b
    requires Some(b) !in g.pDist[a]
    ensures Prunable(g')
  {
    assert g'.Shaped();
    assert Dual(g');
    assert PivotsKept(g');
    forall u: nat, v: nat | u < g.N() && v < g.N()
      ensures g'.cbd[u][v] == g'.cbd[v][u]
      ensures g'.cbd[u][v].Fin? ==> g'.cbd[u][v] == g.cbd[u][v] && g.cbd[u][v].v >= 0.0
    {
      assert g.cbd[u][v] == g.cbd[v][u];
    }
    assert forall u: nat :: u < g.N() ==> g.cbd[u][u] == Fin(0.0);
  }

  /** New distances leave the links alone. */
  lemma RedistanceKeeps(g: Graph, g': Graph)
    requires Prunable(g) && g' == g.(cbd := g'.cbd) && Distances(g'.cbd, g.N()) && NeverUnder(g'.cbd, g.d, g.N())
    ensures Prunable(g')
  {
    hide Distances, NeverUnder;
    assert Square(g'.cbd, g.N()) by { SquareOf(g'.cbd, g.N()); }
    assert g'.Shaped();
  }

  lemma SquareOf(m: seq<seq<Dist>>, n: nat)
    requires Distances(m, n)
    ensures Square(m, n)
  {
  }

  ghost function TopNodes(g: Graph, levels: nat): set<nat> {
    set t: nat | t in Below(g.N()) && g.level[t] + 1 == levels
  }

  /** Each node keeps a link to its nearest top-level node, unless it is one itself. */
  lemma LinkedToTop(g: Graph, levels: nat, u: nat)
    requires Prunable(g) && PivotsBuilt(g, levels) && LevelsOk(g, levels) && levels >= 1 && u < g.N()
    ensures var t := g.pDist[u][levels - 1];
            t.Some? && t.value in TopNodes(g, levels) && Reach(Links(g), Below(g.N()), u, t.value)
  {
    PivotExists(g, levels, u, levels - 1);
    var t := g.pDist[u][levels - 1].value;
    if t == u {
      ReachSelf(Links(g), Below(g.N()), u);
    } else {
      assert t in Links(g)[u];
      ReachEdge(Links(g), Below(g.N()), u, t);
    }
  }

  ghost predicate Apart(adj: seq<set<nat>>, V: set<nat>, S: set<nat>) {
    forall u, v :: u in S && v in S && u != v ==> !Reach(adj, V, u, v)
  }

  /** Nodes that lie in different components number at most the top-level nodes, so the pruned
      graph never has more components than there are top-level nodes. */
  lemma ComponentsBounded(g: Graph, levels: nat, S: set<nat>)
    requires Prunable(g) && PivotsBuilt(g, levels) && LevelsOk(g, levels) && levels >= 1
    requires S <= Below(g.N()) && Apart(Links(g), Below(g.N()), S)
    ensures |S| <= |TopNodes(g, levels)|
  {
    LinksUndirected(g);
    var adj, V := Links(g), Below(g.N());
    forall u | u in S ensures g.pDist[u][levels - 1].Some? && g.pDist[u][levels - 1].value in TopNodes(g, levels) {
      LinkedToTop(g, levels, u);
    }
    forall u, v | u in S && v in S && u != v ensures g.pDist[u][levels - 1] != g.pDist[v][levels - 1] {
      if g.pDist[u][levels - 1] == g.pDist[v][levels - 1] {
        LinkedToTop(g, levels, u);
        LinkedToTop(g, levels, v);
        var t := g.pDist[u][levels - 1].value;
        ReachSym(adj, V, v, t);
        ReachTrans(adj, V, u, t, v);
      }
    }
    var f := map u | u in S :: g.pDist[u][levels - 1].value;
    InjectionCard(S, TopNodes(g, levels), f);
  }

  lemma {:induction false} InjectionCard(S: set<nat>, T: set<nat>, f: map<nat, nat>)
    requires forall u :: u in S ==> u in f && f[u] in T
    requires forall u, v :: u in S && v in S && u != v ==> f[u] != f[v]
    ensures |S| <= |T|
    decreases S
  {
    if S != {} {
      var u :| u in S;
      InjectionCard(S - {u}, T - {f[u]}, f);
    }
  }

  /** Every finite oracle answer on the pruned graph is at least the distance. */
  lemma AnswersNeverUnder(g: Graph, u: nat, v: nat)
    requires Prunable(g) && Metric(g.d, g.N()) && u < g.N() && v < g.N()
    ensures Approx(g, u, v).Some? && Approx(g, u, v).value.Fin? ==> g.d[u][v] <= Approx(g, u, v).value.v
  {
    match Climb(g, u, v, u, 0)
    case None =>
    case Some(m) =>
      Triangle(g.d, g.N(), m.u, m.v, m.w);
      Triangle(g.d, g.N(), m.w, m.u, m.v);
      if Approx(g, u, v).value.Fin? {
        assert g.d[m.w][m.u] <= g.cbd[m.w][m.u].v;
        assert g.d[m.w][m.v] <= g.cbd[m.w][m.v].v;
      }
  }

  /** Pruning touches neither Bunch nor PDist, so a query meets at the same node as before. */
  lemma {:induction false} ClimbUnchanged(g: Graph, g': Graph, u: nat, v: nat, w: nat, i: nat)
    requires g.Shaped() && g'.Shaped() && g'.level == g.level && g'.bunch == g.bunch && g'.pDist == g.pDist
    requires u < g.N() && v < g.N() && w < g.N()
    ensures Climb(g, u, v, w, i) == Climb(g', u, v, w, i)
    decreases |g.pDist[u]| + |g.pDist[v]| - i
  {
    if w !in g.bunch[v] && i + 1 < |g.pDist[v]| {
      ClimbUnchanged(g, g', v, u, if g.pDist[v][i + 1].Some? then g.pDist[v][i + 1].value else w, i + 1);
    }
  }

  /** What GetBridges returns for one order of the children. */
  ghost predicate MarksOf(adj: seq<set<nat>>, order: seq<seq<nat>>, root: nat, bridges: set<(nat, nat)>) {
    && Usable(adj, order, root)
    && (forall x: nat, y: nat :: (x, y) in bridges <==> Separates(adj, root, Last(order, root), x, y))
    && (forall x: nat, y: nat :: (x, y) in bridges ==> IsBridge(adj, Below(|adj|), x, y))
  }

  /** The marks of a search of the current graph, for some order. */
  ghost predicate Marks(g: Graph, root: nat, bridges: set<(nat, nat)>) {
    |g.optBunch| == |g.optCluster| == g.N() && exists order :: MarksOf(Links(g), order, root, bridges)
  }

  // ---------------------------------------------------------------- sequences of removals

  ghost predicate SameLinks(g: Graph, g': Graph) {
    g' == g.(cbd := g'.cbd)
  }

  /** b is dropped from a's bunch; it is none of a's pivots, and the link was not marked as a bridge. */
  ghost predicate Removed(g: Graph, g': Graph, root: nat, a: nat, b: nat) {
    && |g.optBunch| == |g.optCluster| == |g.pDist| == g.N() && a < g.N() && b < g.N() && a != b
    && b in g.optBunch[a] && Some(b) !in g.pDist[a]
    && (exists bridges :: Marks(g, root, bridges) && !((a, b) in bridges && (b, a) in bridges))
    && g' == g.(optBunch := g.optBunch[a := g.optBunch[a] - {b}],
                optCluster := g.optCluster[b := g.optCluster[b] - {a}], cbd := g'.cbd)
  }

  ghost predicate OneRemoved(g: Graph, g': Graph, root: nat) {
    exists a, b :: Removed(g, g', root, a, b)
  }

  /** A sequence of graphs, each but the first one removal after the one before. */
  ghost predicate Removals(gs: seq<Graph>, root: nat)
    requires gs != []
  {
    forall i :: 0 <= i < |gs| - 1 ==> OneRemoved(gs[i], gs[i + 1], root)
  }

  /** Every link that g' lacks has been removed in a permitted step; distances may have changed. */
  ghost predicate Pruned(g: Graph, g': Graph, root: nat) {
    exists gs :: gs != [] && Removals(gs, root) && SameLinks(gs[0], g) && SameLinks(gs[|gs| - 1], g')
  }

  lemma PrunedNothing(g: Graph, g': Graph, root: nat)
    requires SameLinks(g, g')
    ensures Pruned(g, g', root)
  {
    assert Removals([g], root);
  }

  lemma RemovedSame(g: Graph, h: Graph, g': Graph, root: nat, a: nat, b: nat)
    requires Removed(g, g', root, a, b) && SameLinks(g, h)
    ensures Removed(h, g', root, a, b)
  {
    assert Links(h) == Links(g);
    var bridges :| Marks(g, root, bridges) && !((a, b) in bridges && (b, a) in bridges);
    assert Marks(h, root, bridges);
  }

  lemma SameLinksTrans(g: Graph, g': Graph, g'': Graph)
    requires SameLinks(g, g') && SameLinks(g'', g')
    ensures SameLinks(g, g'') && SameLinks(g'', g)
  {
  }

  lemma RemovalsJoin(gs: seq<Graph>, hs: seq<Graph>, root: nat)
    requires gs != [] && hs != [] && Removals(gs, root) && Removals(hs, root) && SameLinks(hs[0], gs[|gs| - 1])
    ensures Removals(gs + hs[1..], root)
  {
    hide Removed, SameLinks;
    var all := gs + hs[1..];
    forall i | 0 <= i < |all| - 1 ensures OneRemoved(all[i], all[i + 1], root) {
      if i < |gs| - 1 {
        assert OneRemoved(gs[i], gs[i + 1], root);
      } else {
        var k := i - (|gs| - 1);
        assert OneRemoved(hs[k], hs[k + 1], root);
        if k == 0 {
          var a, b :| Removed(hs[0], hs[1], root, a, b);
          RemovedSame(hs[0], gs[|gs| - 1], hs[1], root, a, b);
        }
      }
    }
  }

  lemma PrunedTrans(g: Graph, g': Graph, g'': Graph, root: nat)
    requires Pruned(g, g', root) && Pruned(g', g'', root)
    ensures Pruned(g, g'', root)
  {
    hide Removals, SameLinks;
    var gs :| gs != [] && Removals(gs, root) && SameLinks(gs[0], g) && SameLinks(gs[|gs| - 1], g');
    var hs :| hs != [] && Removals(hs, root) && SameLinks(hs[0], g') && SameLinks(hs[|hs| - 1], g'');
    SameLinksTrans(gs[|gs| - 1], g', hs[0]);
    RemovalsJoin(gs, hs, root);
    var all := gs + hs[1..];
    if |hs| == 1 {
      SameLinksOver(gs[|gs| - 1], g', hs[0], g'');
    } else {
      assert all[|all| - 1] == hs[|hs| - 1];
    }
  }

  lemma SameLinksOver(g: Graph, g': Graph, h: Graph, h': Graph)
    requires SameLinks(g, g') && SameLinks(h, g') && SameLinks(h, h')
    ensures SameLinks(g, h')
  {
  }

  lemma PrunedOne(g: Graph, g': Graph, root: nat, a: nat, b: nat, bridges: set<(nat, nat)>)
    requires Dual(g) && Dropped(g, g', a, b) && a != b && b in g.optBunch[a] && Some(b) !in g.pDist[a]
    requires Marks(g, root, bridges) && !((a, b) in bridges && (b, a) in bridges)
    ensures Pruned(g, g', root)
  {
    assert Removed(g, g', root, a, b);
    assert Removals([g, g'], root);
  }

  /** A further removal; the test of either loop has been passed. */
  lemma PrunedFurther(first: Graph, g: Graph, g': Graph, root: nat, a: nat, b: nat, bridges: set<(nat, nat)>)
    requires Pruned(first, g, root) && Prunable(g) && Dropped(g, g', a, b) && a != b && Some(b) !in g.pDist[a]
    requires b in g.optBunch[a] || a in g.optCluster[b]
    requires Marks(g, root, bridges) && !((a, b) in bridges && (b, a) in bridges)
    ensures Pruned(first, g', root)
  {
    hide Pruned, Marks;
    PrunedOne(g, g', root, a, b, bridges);
    PrunedTrans(first, g, g', root);
  }

  /** Removing an unmarked link leaves the root joined to the node its search discovered last. */
  lemma RemovalKeepsLast(g: Graph, g': Graph, root: nat, a: nat, b: nat)
    requires Dual(g) && Loopless(g) && Removed(g, g', root, a, b)
    ensures exists order :: Usable(Links(g), order, root) && Reach(Links(g'), Below(g.N()), root, Last(order, root))
  {
    hide Separates, IsOrder, Last;
    var bridges :| Marks(g, root, bridges) && !((a, b) in bridges && (b, a) in bridges);
    var order :| MarksOf(Links(g), order, root, bridges);
    var x, y := if (a, b) in bridges then b else a, if (a, b) in bridges then a else b;
    LinksUndirected(g);
    assert b in Links(g)[a] && y in Links(g)[x];
    assert !Separates(Links(g), root, Last(order, root), x, y);
    NotSeparated(Links(g), root, Last(order, root), x, y);
    var p :| Walk(Links(g), Below(g.N()), p, root, Last(order, root)) && Avoids(p, x, y);
    forall i | 0 <= i < |p| - 1 ensures Step(Links(g'), p, i) {
      assert Step(Links(g), p, i) && !SameEdge(p[i], p[i + 1], x, y);
    }
    assert Walk(Links(g'), Below(g.N()), p, root, Last(order, root));
  }

  lemma NotSeparated(adj: seq<set<nat>>, root: nat, last: nat, x: nat, y: nat)
    requires !Separates(adj, root, last, x, y) && x < |adj| && y in adj[x]
    ensures ReachAvoiding(adj, Below(|adj|), root, last, x, y)
  {
  }

  // ---------------------------------------------------------------- skipped updates

  /** The nodes to which s has a distance. */
  ghost function Known(m: seq<seq<Dist>>, n: nat, s: nat): set<nat>
    requires Square(m, n) && s < n
  {
    set x | x in Below(n) && m[s][x].Fin?
  }

  /** UpdateDistance compares the number of known distances, the one of s to itself included, with
      the number of bunch and cluster nodes.  As long as s knows no others, the update is skipped
      exactly when one of these nodes has lost its distance. */
  lemma SkipsIff(m: seq<seq<Dist>>, n: nat, s: nat, targets: set<nat>)
    requires Distances(m, n) && s < n && s !in targets && targets <= Below(n)
    requires Known(m, n, s) <= targets + {s}
    ensures |targets| == |Known(m, n, s)| <==> exists b :: targets - Known(m, n, s) == {b}
  {
    var known, lost := Known(m, n, s), targets - Known(m, n, s);
    assert m[s][s].Fin?;
    assert known + lost == targets + {s};
    if |lost| == 1 {
      var b :| b in lost;
      assert |lost - {b}| == 0;
      assert lost == {b};
    }
  }

  /** So after the first removal at a freshly built graph neither end gets a new distance: the pair
      keeps none. */
  lemma FirstRemovalSkipped(g: Graph, g': Graph, levels: nat, a: nat, b: nat)
    requires Built(g, levels) && Dropped(g, g', a, b) && a != b && b in g.optBunch[a]
    ensures g'.cbd[a][b] == Inf && g'.cbd[b][a] == Inf
    ensures |g'.bunch[a] + g'.cluster[a]| == |Known(g'.cbd, g.N(), a)|
    ensures |g'.bunch[b] + g'.cluster[b]| == |Known(g'.cbd, g.N(), b)|
  {
    BuiltKnows(g, levels, a);
    BuiltKnows(g, levels, b);
    assert b in g.bunch[a] && a in g.cluster[b];
    hide Built;
    EndSkips(g.cbd, g'.cbd, g.N(), a, b, g.bunch[a] + g.cluster[a]);
    EndSkips(g.cbd, g'.cbd, g.N(), b, a, g.bunch[b] + g.cluster[b]);
  }

  lemma EndSkips(m: seq<seq<Dist>>, m': seq<seq<Dist>>, n: nat, a: nat, b: nat, targets: set<nat>)
    requires Square(m, n) && Square(m', n) && a < n && b < n && b in targets && a !in targets
    requires Known(m, n, a) == targets + {a} && m'[a][b] == Inf
    requires forall x: nat :: x < n && x != b ==> m'[a][x] == m[a][x]
    ensures |targets| == |Known(m', n, a)|
  {
    assert Known(m', n, a) == Known(m, n, a) - {b};
    assert |targets + {a}| == |targets| + 1;
  }

  lemma BuiltKnows(g: Graph, levels: nat, s: nat)
    requires Built(g, levels) && s < g.N()
    ensures Known(g.cbd, g.N(), s) == g.bunch[s] + g.cluster[s] + {s} && s !in g.bunch[s] + g.cluster[s]
  {
    BuiltDual(g, levels);
    forall x | x in Below(g.N()) ensures g.cbd[s][x].Fin? <==> x in g.bunch[s] + g.cluster[s] + {s} {
      assert g.cbd[s][x] == Entry(g, s, x);
    }
  }

  /** The link from a to its cluster node c has to stay: a is c's pivot, or the link is a bridge. */
  ghost predicate Blocked(g: Graph, a: nat, c: nat) {
    g.Shaped() && a < g.N() && c < g.N() && (Some(a) in g.pDist[c] || IsBridge(Links(g), Below(g.N()), a, c))
  }

  /** A bridge stays a bridge while other links go. */
  lemma BlockedStays(g: Graph, g': Graph, x: nat, y: nat, a: nat, c: nat)
    requires Prunable(g) && Dropped(g, g', x, y) && Prunable(g') && Blocked(g, a, c) && c in g'.optCluster[a]
    ensures Blocked(g', a, c)
  {
    if Some(a) !in g.pDist[c] {
      assert c in Links(g')[a];
      if ReachAvoiding(Links(g'), Below(g.N()), a, c, a, c) {
        AvoidSubgraph(Links(g'), Links(g), Below(g.N()), a, c, a, c);
      }
    }
  }

  /** Every remaining cluster link of a of a level below p, or of level p and index below k, is blocked. */
  ghost predicate ClusterBlocked(g: Graph, a: nat, p: int, k: nat) {
    g.Shaped() && a < g.N() &&
    forall c: nat :: c < g.N() && c in g.optCluster[a] && (g.level[c] < p || (g.level[c] == p && c < k)) ==>
        Blocked(g, a, c)
  }

  lemma ClusterBlockedStays(g: Graph, g': Graph, a: nat, b: nat, p: int, k: nat)
    requires Prunable(g) && Dropped(g, g', b, a) && Prunable(g') && ClusterBlocked(g, a, p, k)
    ensures ClusterBlocked(g', a, p, k) && b !in g'.optCluster[a]
  {
    forall c: nat | c < g.N() && c in g'.optCluster[a] && (g.level[c] < p || (g.level[c] == p && c < k))
      ensures Blocked(g', a, c)
    {
      BlockedStays(g, g', b, a, a, c);
    }
  }

  /** The links of a that have to stay do so while others go. */
  lemma ClusterBlockedKept(g: Graph, g': Graph, x: nat, y: nat, a: nat, p: int)
    requires Prunable(g) && Dropped(g, g', x, y) && Prunable(g') && ClusterBlocked(g, a, p, 0)
    ensures ClusterBlocked(g', a, p, 0)
  {
    forall c: nat | c < g.N() && c in g'.optCluster[a] && g.level[c] < p ensures Blocked(g', a, c) {
      BlockedStays(g, g', x, y, a, c);
    }
  }

  /** The test of the cluster loop on c. */
  lemma ClusterBlockedStep(g: Graph, root: nat, a: nat, p: nat, c: nat, bridges: set<(nat, nat)>)
    requires Prunable(g) && Marks(g, root, bridges) && ClusterBlocked(g, a, p, c) && c < g.N()
    requires c in g.optCluster[a] && g.level[c] == p ==> Some(a) in g.pDist[c] || c == a || (a, c) in bridges
    ensures ClusterBlocked(g, a, p, c + 1)
  {
    assert a !in g.optCluster[a];
  }

  lemma ClusterBlockedNext(g: Graph, a: nat, p: nat)
    requires ClusterBlocked(g, a, p, g.N())
    ensures ClusterBlocked(g, a, p + 1, 0)
  {
  }

  // ---------------------------------------------------------------- the bunch loop

  /** The tests of the bunch loop let the link from a to its bunch node b go. */
  ghost predicate Removable(g: Graph, a: nat, b: nat, bridges: set<(nat, nat)>) {
    && a < |g.optBunch| && a < |g.pDist|
    && b in g.optBunch[a] && Some(b) !in g.pDist[a] && b != a && (a, b) !in bridges
  }

  /** The link from a to its bunch node b has to stay: b is a's pivot, or the link is a bridge. */
  ghost predicate Kept(g: Graph, a: nat, b: nat) {
    g.Shaped() && a < g.N() && b < g.N() && (Some(b) in g.pDist[a] || IsBridge(Links(g), Below(g.N()), a, b))
  }

  /** Every remaining bunch link of a has to stay. */
  ghost predicate BunchKept(g: Graph, a: nat) {
    g.Shaped() && a < g.N() && forall b: nat :: b in g.optBunch[a] ==> Kept(g, a, b)
  }

  /** The sets of nrPerLevel hold bunch nodes of a of their level; the others have to stay. */
  ghost predicate Tallied(g: Graph, a: nat, nr: seq<set<nat>>) {
    && g.Shaped() && a < g.N() && |nr| == 3 && (forall u: nat :: u < g.N() ==> g.level[u] < 3)
    && (forall l: nat, b: nat {:trigger b in nr[l]} :: l < 3 && b in nr[l] ==>
          b in g.optBunch[a] && b < g.N() && g.level[b] == l)
    && (forall b: nat :: b in g.optBunch[a] ==> b in nr[g.level[b]] || Kept(g, a, b))
  }

  /** Nothing is listed above the priority level. */
  ghost predicate Topped(nr: seq<set<nat>>, priority: int) {
    |nr| == 3 && forall l: nat :: l < 3 && l > priority ==> nr[l] == {}
  }

  /** Everything listed on the priority level can go. */
  ghost predicate Clean(g: Graph, a: nat, bridges: set<(nat, nat)>, nr: seq<set<nat>>, priority: int) {
    0 <= priority < |nr| ==> forall e :: e in nr[priority] ==> Removable(g, a, e, bridges)
  }

  /** A link that can go and is listed. */
  ghost predicate Listed(g: Graph, a: nat, bridges: set<(nat, nat)>, nr: seq<set<nat>>, b: nat) {
    Removable(g, a, b, bridges) && b < |g.level| && g.level[b] < |nr| && b in nr[g.level[b]]
  }

  /** One pass has come to node k without removing anything. */
  ghost predicate Scanned(g: Graph, a: nat, bridges: set<(nat, nat)>, nr: seq<set<nat>>, priority: int,
                          nr': seq<set<nat>>, priority': int, k: nat) {
    && Tallied(g, a, nr') && |nr| == 3 && priority' <= priority
    && (forall l: nat, e: nat {:trigger e in nr'[l]} :: l < 3 ==>
          (e in nr'[l] <==> e in nr[l] && (e >= k || Removable(g, a, e, bridges))))
    && (Topped(nr, priority) ==> Topped(nr', priority'))
    && ((exists e: nat :: e < k && Removable(g, a, e, bridges)) ==>
          priority' < priority || (0 <= priority < 3 && nr[priority] != {}))
    && (Topped(nr, priority) ==>
          forall e: nat :: e < k && Listed(g, a, bridges, nr, e) ==> g.level[e] != priority)
  }

  lemma ScanStarts(g: Graph, a: nat, bridges: set<(nat, nat)>, nr: seq<set<nat>>, priority: int)
    requires Tallied(g, a, nr)
    ensures Scanned(g, a, bridges, nr, priority, nr, priority, 0)
  {
  }

  /** A node that is not in the bunch. */
  lemma ScanPasses(g: Graph, a: nat, bridges: set<(nat, nat)>, nr: seq<set<nat>>, priority: int,
                   nr': seq<set<nat>>, priority': int, k: nat)
    requires Scanned(g, a, bridges, nr, priority, nr', priority', k) && Tallied(g, a, nr) && k !in g.optBunch[a]
    ensures Scanned(g, a, bridges, nr, priority, nr', priority', k + 1)
  {
  }

  /** A bunch node whose link has to stay is struck off. */
  lemma ScanStrikes(g: Graph, root: nat, a: nat, bridges: set<(nat, nat)>, nr: seq<set<nat>>, priority: int,
                    nr': seq<set<nat>>, priority': int, k: nat)
    requires Scanned(g, a, bridges, nr, priority, nr', priority', k) && Tallied(g, a, nr) && k < g.N()
    requires k in g.optBunch[a] && !Removable(g, a, k, bridges) && k != a && Marks(g, root, bridges)
    ensures Scanned(g, a, bridges, nr, priority, nr'[g.level[k] := nr'[g.level[k]] - {k}], priority', k + 1)
  {
    hide Marks, Kept, Tallied, Clean;
    StrikesTally(g, root, a, bridges, nr', k);
    TallyAt(g, a, nr, k);
    var nr'' := nr'[g.level[k] := nr'[g.level[k]] - {k}];
    forall l: nat, e: nat | l < 3
      ensures e in nr''[l] <==> e in nr[l] && (e >= k + 1 || Removable(g, a, e, bridges))
    {
      assert e in nr'[l] <==> e in nr[l] && (e >= k || Removable(g, a, e, bridges));
    }
  }

  lemma TallyAt(g: Graph, a: nat, nr: seq<set<nat>>, k: nat)
    requires Tallied(g, a, nr) && k < g.N()
    ensures forall l: nat :: l < 3 && k in nr[l] ==> g.level[k] == l
  {
  }

  lemma StrikesTally(g: Graph, root: nat, a: nat, bridges: set<(nat, nat)>, nr: seq<set<nat>>, k: nat)
    requires Tallied(g, a, nr) && k < g.N() && Marks(g, root, bridges)
    requires k in g.optBunch[a] && !Removable(g, a, k, bridges) && k != a
    ensures |nr| == 3 && g.level[k] < 3 && Tallied(g, a, nr[g.level[k] := nr[g.level[k]] - {k}])
  {
    assert Kept(g, a, k);
    hide Marks, Kept, Removable;
  }

  /** The priority level after the test on a link that can go. */
  ghost function Sunk(nr: seq<set<nat>>, priority: int): int {
    if !(0 <= priority < |nr|) || nr[priority] == {} then priority - 1 else priority
  }

  /** A link that can go but is not of the priority level. */
  lemma ScanSkips(g: Graph, a: nat, bridges: set<(nat, nat)>, nr: seq<set<nat>>, priority: int,
                  nr': seq<set<nat>>, priority': int, k: nat)
    requires Scanned(g, a, bridges, nr, priority, nr', priority', k) && Tallied(g, a, nr) && k < g.N()
    requires Removable(g, a, k, bridges) && g.level[k] != Sunk(nr', priority')
    ensures Scanned(g, a, bridges, nr, priority, nr', Sunk(nr', priority'), k + 1)
  {
    hide Tallied, Kept, Clean;
    TallyLevel(g, a, nr', k);
    assert k in nr[g.level[k]] ==> k in nr'[g.level[k]];
    SunkStaysTopped(nr', priority');
  }

  lemma TallyLevel(g: Graph, a: nat, nr: seq<set<nat>>, k: nat)
    requires Tallied(g, a, nr) && k < g.N()
    ensures |nr| == 3 && g.level[k] < 3
  {
  }

  lemma SunkStaysTopped(nr: seq<set<nat>>, priority: int)
    ensures Topped(nr, priority) ==> Topped(nr, Sunk(nr, priority))
    ensures Sunk(nr, priority) <= priority
  {
  }

  /** What a pass that removes nothing leaves: only links that can go are listed, and a listed one is
      not of the priority level the pass began with; that level sinks, unless something listed there
      had to be struck off first. */
  lemma ScanEnds(g: Graph, a: nat, bridges: set<(nat, nat)>, nr: seq<set<nat>>, priority: int,
                 nr': seq<set<nat>>, priority': int)
    requires Scanned(g, a, bridges, nr, priority, nr', priority', g.N()) && Tallied(g, a, nr)
    ensures Tallied(g, a, nr') && priority' <= priority && (Topped(nr, priority) ==> Topped(nr', priority'))
    ensures forall l: nat, e: nat {:trigger e in nr'[l]} :: l < 3 && e in nr'[l] ==> Removable(g, a, e, bridges)
    ensures forall c: nat :: Listed(g, a, bridges, nr, c) ==> Listed(g, a, bridges, nr', c)
    ensures Topped(nr, priority) ==> forall c: nat :: Listed(g, a, bridges, nr, c) ==>
              && g.level[c] <= priority' && g.level[c] < priority
              && (Clean(g, a, bridges, nr, priority) ==> priority' < priority)
  {
    forall l: nat, e: nat | l < 3 && e in nr'[l] ensures Removable(g, a, e, bridges) { assert e < g.N(); }
    forall c: nat | Topped(nr, priority) && Listed(g, a, bridges, nr, c)
      ensures g.level[c] <= priority' && g.level[c] < priority
      ensures Clean(g, a, bridges, nr, priority) ==> priority' < priority
    {
      assert c < g.N() && c in nr'[g.level[c]];
      assert Clean(g, a, bridges, nr, priority) && 0 <= priority < 3 ==>
          forall e :: e in nr[priority] ==> Listed(g, a, bridges, nr, e);
    }
  }

  lemma KeptStays(g: Graph, g': Graph, x: nat, y: nat, a: nat, b: nat)
    requires Prunable(g) && Dropped(g, g', x, y) && Prunable(g') && Kept(g, a, b) && b in g'.optBunch[a]
    ensures Kept(g', a, b)
  {
    if Some(b) !in g.pDist[a] {
      assert b in Links(g')[a];
      if ReachAvoiding(Links(g'), Below(g.N()), a, b, a, b) {
        AvoidSubgraph(Links(g'), Links(g), Below(g.N()), a, b, a, b);
      }
    }
  }

  lemma BunchKeptStays(g: Graph, g': Graph, a: nat, b: nat)
    requires Prunable(g) && Dropped(g, g', a, b) && Prunable(g') && BunchKept(g, a)
    ensures BunchKept(g', a)
  {
    forall x: nat | x in g'.optBunch[a] ensures Kept(g', a, x) { KeptStays(g, g', a, b, a, x); }
  }

  /** The removal of k from a's bunch and from the list. */
  lemma ScanRemoves(g: Graph, g': Graph, a: nat, bridges: set<(nat, nat)>, nr: seq<set<nat>>, priority: int,
                    nr': seq<set<nat>>, priority': int, k: nat)
    requires Scanned(g, a, bridges, nr, priority, nr', priority', k) && Removable(g, a, k, bridges) && k < g.N()
    requires Prunable(g) && Dropped(g, g', a, k) && Prunable(g')
    requires g.level[k] == Sunk(nr', priority')
    ensures Tallied(g', a, nr'[g.level[k] := nr'[g.level[k]] - {k}])
    ensures Topped(nr, priority) ==> Topped(nr'[g.level[k] := nr'[g.level[k]] - {k}], Sunk(nr', priority'))
  {
    forall b: nat | b in g'.optBunch[a] && b !in nr'[g.level[b]] ensures Kept(g', a, b) {
      KeptStays(g, g', a, k, a, b);
    }
  }

  /** Without a listed link that can go, every link has to stay. */
  lemma NothingListed(g: Graph, root: nat, a: nat, bridges: set<(nat, nat)>, nr: seq<set<nat>>)
    requires Tallied(g, a, nr) && Loopless(g) && Marks(g, root, bridges)
    requires forall c: nat :: !Listed(g, a, bridges, nr, c)
    ensures BunchKept(g, a)
  {
    forall b: nat | b in g.optBunch[a] ensures Kept(g, a, b) {
      assert !Listed(g, a, bridges, nr, b);
    }
  }

  // ---------------------------------------------------------------- how long the bunch loop can go without a removal

  /** As long as some listed link can go, the passes since the last removal and the levels the priority
      has still to sink number at most top. */
  ghost predicate Budget(g: Graph, a: nat, bridges: set<(nat, nat)>, nr: seq<set<nat>>, priority: int, idle: nat,
                         top: nat) {
    (exists c: nat :: Listed(g, a, bridges, nr, c)) ==>
      priority + (if Clean(g, a, bridges, nr, priority) then 0 else 1) + idle <= top
  }

  /** The state of the bunch loop around a after k passes, gone of them with a removal and idle ones
      since the last. */
  ghost predicate Advancing(g: Graph, a: nat, bridges: set<(nat, nat)>, nr: seq<set<nat>>, priority: int, k: nat,
                            gone: nat, idle: nat, top: nat) {
    BunchKept(g, a) ||
    (Topped(nr, priority) && idle <= top && k <= (top + 1) * gone + idle &&
     Budget(g, a, bridges, nr, priority, idle, top))
  }

  lemma IdlePass(g: Graph, root: nat, a: nat, bridges: set<(nat, nat)>, nr: seq<set<nat>>, priority: int,
                 nr': seq<set<nat>>, priority': int, k: nat, gone: nat, idle: nat, top: nat)
    requires Advancing(g, a, bridges, nr, priority, k, gone, idle, top) && Tallied(g, a, nr)
    requires Scanned(g, a, bridges, nr, priority, nr', priority', g.N()) && Loopless(g) && Marks(g, root, bridges)
    ensures Advancing(g, a, bridges, nr', priority', k + 1, gone, idle + 1, top)
  {
    hide Marks, Scanned, Kept, BunchKept, Removable;
    ScanEnds(g, a, bridges, nr, priority, nr', priority');
    if forall c: nat :: !Listed(g, a, bridges, nr, c) {
      NothingListed(g, root, a, bridges, nr);
    } else if !BunchKept(g, a) {
      var c: nat :| Listed(g, a, bridges, nr, c);
      assert Clean(g, a, bridges, nr', priority');
    }
  }

  lemma BusyPass(g: Graph, g': Graph, a: nat, b: nat, bridges: set<(nat, nat)>, nr: seq<set<nat>>, priority: int,
                 bridges': set<(nat, nat)>, nr': seq<set<nat>>, priority': int, k: nat, gone: nat, idle: nat, top: nat)
    requires Advancing(g, a, bridges, nr, priority, k, gone, idle, top)
    requires Prunable(g) && Dropped(g, g', a, b) && Prunable(g') && b < |g.level|
    requires (Topped(nr, priority) ==> Topped(nr', priority')) && priority' == g.level[b] < top
    ensures Advancing(g', a, bridges', nr', priority', k + 1, gone + 1, 0, top)
  {
    hide Prunable, Dropped, Kept, Removable, Listed;
    if BunchKept(g, a) {
      BunchKeptStays(g, g', a, b);
    } else {
      assert (top + 1) * (gone + 1) == (top + 1) * gone + top + 1;
    }
  }
}
