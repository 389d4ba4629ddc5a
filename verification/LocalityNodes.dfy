/**
 LocalityNodes: building the graph, answering oracle queries, and the distance updates.
 */
module LocalityGraph {
  import opened Sets
  import opened Locality
  import opened ShortestWalks
  import opened Pruning
  import Bridges

  class LocalityNodes {
    const level: seq<nat>
    const d: seq<seq<real>>
    var pDist: seq<seq<Option<nat>>>
    var aDist: seq<seq<Dist>>
    var bunch: seq<set<nat>>
    var cluster: seq<set<nat>>
    var optBunch: seq<set<nat>>
    var optCluster: seq<set<nat>>
    var cbd: seq<seq<Dist>>

    function View(): Graph
      reads this
    {
      Graph(level, d, pDist, aDist, bunch, cluster, optBunch, optCluster, cbd)
    }

    function N(): nat { |level| }

    /** The services allocate empty sets and a matrix that is zero on the diagonal and
        MaxFloat64 elsewhere. */
    constructor (level: seq<nat>, d: seq<seq<real>>)
      requires Square(d, |level|)
      ensures this.level == level && this.d == d && Fresh()
    {
      var n := |level|;
      this.level, this.d := level, d;
      pDist, aDist := seq(n, _ => []), seq(n, _ => []);
      bunch, cluster := seq(n, _ => {}), seq(n, _ => {});
      optBunch, optCluster := seq(n, _ => {}), seq(n, _ => {});
      cbd := seq(n, i => seq(n, j => if i == j then Fin(0.0) else Inf));
    }

    ghost predicate Fresh()
      reads this
    {
      && Recorded(View())
      && (forall u: nat :: u < N() ==> pDist[u] == [] && aDist[u] == [] && bunch[u] == {} && cluster[u] == {})
      && optBunch == bunch && optCluster == cluster
    }

    method NearestOfLevel(v1: nat, i: nat) returns (p: Option<nat>, min: Dist)
      requires Square(d, N()) && v1 < N()
      ensures IsPivot(level, d[v1], i, p, min)
    {
      p, min := None, Inf;
      for v2 := 0 to N()
        invariant p.None? ==> min == Inf && forall v: nat :: v < v2 ==> level[v] < i
        invariant p.Some? ==> p.value < v2 && level[p.value] >= i && min == Fin(d[v1][p.value])
        invariant p.Some? ==> forall v: nat :: v < v2 && level[v] >= i ==> d[v1][p.value] <= d[v1][v]
        invariant p.Some? ==> forall v: nat :: v < p.value && level[v] >= i ==> d[v1][p.value] < d[v1][v]
      {
        if level[v2] >= i && Fin(d[v1][v2]).Less(min) {
          p, min := Some(v2), Fin(d[v1][v2]);
        }
      }
    }

    method Pivots(levels: nat)
      requires Fresh()
      modifies this`pDist, this`aDist
      ensures PivotsBuilt(View(), levels)
    {
      for i := 0 to levels
        invariant PivotsBuilt(View(), i)
      {
        PivotsOfLevel(i);
      }
    }

    method PivotsOfLevel(i: nat)
      requires PivotsBuilt(View(), i)
      modifies this`pDist, this`aDist
      ensures PivotsBuilt(View(), i + 1)
    {
      hide IsPivot;
      for v1 := 0 to N()
        invariant View().Shaped()
        invariant forall u: nat :: u < N() ==> |pDist[u]| == |aDist[u]| == if u < v1 then i + 1 else i
        invariant forall u: nat, j: nat :: u < N() && j < |pDist[u]| ==>
          IsPivot(level, d[u], j, pDist[u][j], aDist[u][j])
      {
        var p, min := NearestOfLevel(v1, i);
        PivotIsNode(level, d[v1], i, p, min);
        pDist := pDist[v1 := pDist[v1] + [p]];
        aDist := aDist[v1 := aDist[v1] + [min]];
      }
    }

    method CheckDistance(dist: real, lvl: nat, lvls: nat, adist: seq<Dist>) returns (ok: bool)
      requires |adist| == lvls
      ensures ok <==> Near(dist, lvl, lvls, adist)
    {
      for i := lvl + 1 to if lvl + 1 <= lvls then lvls else lvl + 1
        invariant forall j: nat :: lvl < j < i && j < lvls ==> Fin(dist).LessEq(adist[j])
      {
        if !Fin(dist).LessEq(adist[i]) {
          return false;
        }
      }
      return true;
    }

    method Admit(v1: nat, v2: nat)
      requires Recorded(View()) && Metric(d, N()) && v1 < N() && v2 < N() && v1 != v2
      requires optBunch == bunch
      modifies this`bunch, this`optBunch, this`cbd
      ensures Recorded(View()) && optBunch == bunch && View().Shaped()
      ensures bunch == old(bunch)[v1 := old(bunch)[v1] + {v2}]
    {
      Triangle(d, N(), v1, v2, v1);
      hide Metric;
      bunch := bunch[v1 := bunch[v1] + {v2}];
      optBunch := optBunch[v1 := optBunch[v1] + {v2}];
      cbd := cbd[v1 := cbd[v1][v2 := Fin(d[v1][v2])]];
      cbd := cbd[v2 := cbd[v2][v1 := Fin(d[v1][v2])]];
    }

    method BunchOf(v1: nat, levels: nat)
      requires PivotsBuilt(View(), levels) && Recorded(View()) && Metric(d, N()) && v1 < N()
      requires bunch[v1] == {} && optBunch == bunch
      modifies this`bunch, this`optBunch, this`cbd
      ensures PivotsBuilt(View(), levels) && Recorded(View()) && optBunch == bunch
      ensures bunch == old(bunch)[v1 := bunch[v1]]
      ensures forall v2: nat :: v2 < N() ==>
                (v2 in bunch[v1] <==> AdmittedBefore(level, d[v1], aDist[v1], v1, v2, levels - 1))
    {
      forall v: nat | v < N() ensures !AdmittedBefore(level, d[v1], aDist[v1], v1, v, 0) {
        AdmittedStep(level, d[v1], aDist[v1], v1, v, 0);
      }
      hide Recorded, IsPivot, Near, Metric, AdmittedBefore;
      for i := 0 to if levels == 0 then 0 else levels - 1
        invariant PivotsBuilt(View(), levels) && Recorded(View()) && optBunch == bunch
        invariant |bunch| == N() && bunch == old(bunch)[v1 := bunch[v1]]
        invariant forall v: nat :: v < N() ==> (v in bunch[v1] <==> AdmittedBefore(level, d[v1], aDist[v1], v1, v, i))
      {
        BunchPass(v1, i, levels);
      }
    }

    method BunchPass(v1: nat, i: nat, levels: nat)
      requires PivotsBuilt(View(), levels) && Recorded(View()) && Metric(d, N()) && v1 < N() && optBunch == bunch
      requires forall v: nat :: v < N() ==> (v in bunch[v1] <==> AdmittedBefore(level, d[v1], aDist[v1], v1, v, i))
      modifies this`bunch, this`optBunch, this`cbd
      ensures PivotsBuilt(View(), levels) && Recorded(View()) && optBunch == bunch
      ensures |bunch| == N() && bunch == old(bunch)[v1 := bunch[v1]]
      ensures forall v: nat :: v < N() ==> (v in bunch[v1] <==> AdmittedBefore(level, d[v1], aDist[v1], v1, v, i + 1))
    {
      hide Recorded, IsPivot, Near, Metric, AdmittedBefore;
      for v2 := 0 to N()
        invariant PivotsBuilt(View(), levels) && Recorded(View()) && optBunch == bunch
        invariant |bunch| == N() && bunch == old(bunch)[v1 := bunch[v1]]
        invariant forall v: nat :: v < N() ==>
          (v in bunch[v1] <==> AdmittedBefore(level, d[v1], aDist[v1], v1, v, if v < v2 then i + 1 else i))
      {
        AdmittedStep(level, d[v1], aDist[v1], v1, v2, i);
        var near := CheckDistance(d[v1][v2], i, levels, aDist[v1]);
        if level[v2] >= i && near && v2 != v1 {
          Admit(v1, v2);
        }
        if level[v2] + 1 == levels && v2 != v1 {
          Admit(v1, v2);
        }
      }
    }

    method Bunches(levels: nat)
      requires PivotsBuilt(View(), levels) && Recorded(View()) && Metric(d, N())
      requires optBunch == bunch && forall u: nat :: u < N() ==> bunch[u] == {}
      modifies this`bunch, this`optBunch, this`cbd
      ensures BunchesBuilt(View(), levels) && Recorded(View()) && optBunch == bunch
    {
      for v1 := 0 to N()
        invariant PivotsBuilt(View(), levels) && Recorded(View()) && optBunch == bunch
        invariant forall u: nat, v: nat :: u < v1 && v < N() ==>
          (v in bunch[u] <==> AdmittedBefore(level, d[u], aDist[u], u, v, levels - 1))
        invariant forall u: nat :: v1 <= u < N() ==> bunch[u] == {}
      {
        BunchOf(v1, levels);
      }
    }

    method Enlist(v1: nat, v2: nat)
      requires Recorded(View()) && Metric(d, N()) && v1 < N() && v2 < N() && v1 != v2 && v1 in bunch[v2]
      requires optCluster == cluster
      modifies this`cluster, this`optCluster, this`cbd
      ensures Recorded(View()) && optCluster == cluster
      ensures cluster == old(cluster)[v1 := old(cluster)[v1] + {v2}]
    {
      Triangle(d, N(), v1, v2, v1);
      hide Metric;
      optCluster := optCluster[v1 := optCluster[v1] + {v2}];
      cluster := cluster[v1 := cluster[v1] + {v2}];
      cbd := cbd[v1 := cbd[v1][v2 := Fin(d[v1][v2])]];
      cbd := cbd[v2 := cbd[v2][v1 := Fin(d[v1][v2])]];
    }

    method Clusters()
      requires Recorded(View()) && Metric(d, N())
      requires optCluster == cluster && forall u: nat :: u < N() ==> cluster[u] == {}
      modifies this`cluster, this`optCluster, this`cbd
      ensures Recorded(View()) && optCluster == cluster
      ensures forall v1: nat :: v1 < N() ==> IsClusterOf(cluster[v1], bunch, v1, N())
    {
      hide Entry, Metric, IsClusterOf;
      for v1 := 0 to N()
        invariant Recorded(View()) && optCluster == cluster
        invariant forall u: nat :: u < v1 ==> IsClusterOf(cluster[u], bunch, u, N())
        invariant forall u: nat :: v1 <= u < N() ==> cluster[u] == {}
      {
        ghost var before := cluster;
        for v2 := 0 to N()
          invariant Recorded(View()) && optCluster == cluster
          invariant cluster == before[v1 := cluster[v1]]
          invariant forall v: nat :: v in cluster[v1] <==> v < v2 && v1 in bunch[v] && v1 != v
        {
          if v1 in bunch[v2] && v2 != v1 {
            Enlist(v1, v2);
          }
        }
        assert forall u: nat :: u < N() && u != v1 ==> cluster[u] == before[u];
        ClusterComplete(cluster[v1], bunch, v1, N());
      }
    }

    /** CreateLocalityGraph without the random coordinates and levels and without the files. */
    method CreateLocalityGraph(levels: nat)
      requires Fresh() && Metric(d, N())
      modifies this
      ensures Built(View(), levels)
    {
      Pivots(levels);
      Bunches(levels);
      Clusters();
      forall v1: nat, v2: nat | v1 < N() && v2 < N() ensures v2 in cluster[v1] <==> v1 in bunch[v2] {
        assert IsClusterOf(cluster[v1], bunch, v1, N());
      }
    }

    method ApproxDistance(nodeU: nat, nodeV: nat) returns (r: Option<Dist>)
      requires View().Shaped() && nodeU < N() && nodeV < N()
      ensures r == Approx(View(), nodeU, nodeV)
    {
      var u: nat, v: nat, w: nat, i: nat := nodeU, nodeV, nodeU, 0;
      while w !in bunch[v]
        invariant u < N() && v < N() && w < N()
        invariant Climb(View(), u, v, w, i) == Climb(View(), nodeU, nodeV, nodeU, 0)
        decreases |pDist[u]| + |pDist[v]| - i
      {
        i := i + 1;
        u, v := v, u;
        if i >= |pDist[u]| {
          return None;
        }
        if pDist[u][i].Some? {
          w := pDist[u][i].value;
        }
      }
      return Some(cbd[w][u].Plus(cbd[w][v]));
    }

    /** The matrix fill of AproximateDistanceOracle; None when a query indexes past PDist. */
    method ApproximateDistanceOracle() returns (r: Option<seq<seq<Dist>>>)
      requires View().Shaped()
      ensures r.Some? <==> forall u: nat, v: nat :: u < N() && v < N() && u != v ==> Approx(View(), u, v).Some?
      ensures r.Some? ==> Square(r.value, N())
      ensures r.Some? ==> forall u: nat, v: nat :: u < N() && v < N() ==>
                Some(r.value[u][v]) == if u == v then Some(Fin(0.0)) else Approx(View(), u, v)
    {
      var dist2 := cbd;
      for u := 0 to N()
        invariant Square(dist2, N())
        invariant forall x: nat, y: nat :: x < u && y < N() ==>
          Some(dist2[x][y]) == if x == y then Some(Fin(0.0)) else Approx(View(), x, y)
      {
        for v := 0 to N()
          invariant Square(dist2, N())
          invariant forall x: nat, y: nat :: x < u && y < N() ==>
            Some(dist2[x][y]) == if x == y then Some(Fin(0.0)) else Approx(View(), x, y)
          invariant forall y: nat :: y < v ==>
            Some(dist2[u][y]) == if u == y then Some(Fin(0.0)) else Approx(View(), u, y)
        {
          if u == v {
            dist2 := dist2[u := dist2[u][v := Fin(0.0)]];
          } else {
            var a := ApproxDistance(u, v);
            if a.None? {
              return None;
            }
            dist2 := dist2[u := dist2[u][v := a.value]];
          }
        }
      }
      return Some(dist2);
    }

    /** How many nodes are in the bunch or the cluster of s, and how many have a known distance. */
    method Counts(s: nat) returns (toVisit: nat, known: nat, ghost knownSet: set<nat>)
      requires View().Shaped() && s < N()
      ensures toVisit == |bunch[s] + cluster[s]| && known == |knownSet|
      ensures forall x: nat :: x in knownSet <==> x < N() && cbd[s][x].Fin?
    {
      toVisit, known, knownSet := 0, 0, {};
      ghost var seen: set<nat> := {};
      for x := 0 to N()
        invariant forall y: nat :: y in seen <==> y < x && y in bunch[s] + cluster[s]
        invariant forall y: nat :: y in knownSet <==> y < x && cbd[s][y].Fin?
        invariant toVisit == |seen| && known == |knownSet|
      {
        if x in cluster[s] || x in bunch[s] {
          toVisit, seen := toVisit + 1, seen + {x};
        }
        if cbd[s][x].Fin? {
          known, knownSet := known + 1, knownSet + {x};
        }
      }
      assert forall y: nat :: y in bunch[s] + cluster[s] ==> y in bunch[s] || y in cluster[s];
      assert seen == bunch[s] + cluster[s];
    }

    method RelaxFrom(s: nat, crt: nat, ghost m: seq<seq<Dist>>, ghost visited: set<nat>)
      requires Square(cbd, N()) && s < N() && crt < N()
      requires Patched(m, N(), s, cbd[s], cbd) && Tentative(m, N(), s, cbd[s], visited, {crt}) && cbd[s][crt].Fin?
      modifies this`cbd
      ensures Square(cbd, N()) && Patched(m, N(), s, cbd[s], cbd) && Tentative(m, N(), s, cbd[s], visited, {})
    {
      hide Tentative, Distances, RelaxedUpTo;
      var distSoFar := cbd[s][crt];
      assert RelaxedUpTo(m, N(), cbd[s], crt, 0) by { Unrelaxed(m, N(), cbd[s], crt); }
      for node := 0 to N()
        invariant Square(cbd, N()) && Patched(m, N(), s, cbd[s], cbd) && cbd[s][crt] == distSoFar
        invariant Tentative(m, N(), s, cbd[s], visited, {crt}) && RelaxedUpTo(m, N(), cbd[s], crt, node)
      {
        RelaxOnce(m, N(), s, cbd[s], visited, crt, node);
        ghost var row := Relax(cbd[s], cbd[s][crt], Link(m, N(), s, cbd[s], crt, node), node);
        if cbd[crt][node].Fin? {
          if distSoFar.Plus(cbd[crt][node]).Less(cbd[s][node]) {
            cbd := cbd[s := cbd[s][node := distSoFar.Plus(cbd[crt][node])]];
            cbd := cbd[node := cbd[node][s := cbd[s][node]]];
          }
        }
        assert cbd[s] == row;
      }
      AllRelaxed(m, N(), s, cbd[s], visited, crt);
    }

    /** The unvisited node with the smallest entry in the row of s, the row read in any order. */
    method NextNode(s: nat, visited: set<nat>) returns (next: Option<nat>)
      requires Square(cbd, N()) && s < N()
      ensures next.Some? ==> next.value < N() && next.value !in visited && cbd[s][next.value].Fin?
      ensures next.Some? ==> forall y: nat :: y < N() && y !in visited ==> cbd[s][next.value].LessEq(cbd[s][y])
      ensures next.None? ==> forall y: nat :: y < N() && y !in visited ==> cbd[s][y].Inf?
    {
      next := None;
      var dist := Inf;
      var todo := Below(N());
      while todo != {}
        invariant forall x: nat :: x in todo ==> x < N()
        invariant next.None? ==> dist == Inf
        invariant next.Some? ==> next.value < N() && next.value !in visited && dist == cbd[s][next.value] && dist.Fin?
        invariant forall y: nat :: y < N() && y !in visited && y !in todo ==> dist.LessEq(cbd[s][y])
        decreases todo
      {
        var x :| x in todo;
        todo := todo - {x};
        if x !in visited && cbd[s][x].Less(dist) {
          next, dist := Some(x), cbd[s][x];
        }
      }
    }

    /** Only row and column s change; every entry of the row is the length of a walk over the old
        matrix.  A run that is not skipped leaves shortest distances for the bunch and the cluster of
        s, and it completes exactly when all of them can be reached.  So a bunch or cluster node is
        left without a distance exactly if it had none and the run was skipped, or it is out of reach. */
    method UpdateDistance(s: nat) returns (r: UpdateResult)
      requires View().Shaped() && Distances(cbd, N()) && s < N()
      modifies this`cbd
      ensures View().Shaped() && Distances(cbd, N())
      ensures Patched(old(cbd), N(), s, cbd[s], cbd)
      ensures forall x: nat :: x < N() ==> Achieved(old(cbd), N(), s, x, cbd[s][x]) && cbd[s][x].LessEq(old(cbd)[s][x])
      ensures r.AlreadyKnown? <==> |bunch[s] + cluster[s]| == |Known(old(cbd), N(), s)|
      ensures r.AlreadyKnown? ==> cbd == old(cbd)
      ensures !r.AlreadyKnown? ==> forall x: nat :: x in bunch[s] || x in cluster[s] ==>
                Shortest(old(cbd), N(), s, x, cbd[s][x])
      ensures r.Completed? <==>
              !r.AlreadyKnown? && forall x: nat :: x in bunch[s] || x in cluster[s] ==> Reachable(old(cbd), N(), s, x)
      ensures forall x: nat :: x in bunch[s] || x in cluster[s] ==>
                (cbd[s][x].Inf? <==> if r.AlreadyKnown? then old(cbd)[s][x].Inf? else !Reachable(old(cbd), N(), s, x))
      ensures Refreshed(old(cbd), s) && (r == NilNode ==> OutOfReach(s))
    {
      hide Tentative, Distances, Achieved, Shortest, Reachable, Patched;
      ghost var m: seq<seq<Dist>> := cbd;
      var nodesToVisit, alreadyKnown, known := Counts(s);
      assert known == Known(m, N(), s);
      StartsTentative(m, N(), s);
      if alreadyKnown == nodesToVisit {
        SearchUpdates(m, N(), s, m, {}, {s});
        return AlreadyKnown;
      }
      assert forall x: nat :: x in bunch[s] + cluster[s] ==> x in bunch[s] || x in cluster[s];
      r := VisitTargets(s, nodesToVisit, m, bunch[s] + cluster[s]);
      forall x: nat | x in bunch[s] + cluster[s] ensures cbd[s][x].Inf? <==> !Reachable(m, N(), s, x) {
        ShortestFinite(m, N(), s, x, cbd[s][x]);
      }
    }

    /** In the middle of the main loop: crt is the node settled last. */
    ghost predicate Searching(m: seq<seq<Dist>>, s: nat, visited: set<nat>, crt: nat)
      reads this
    {
      && Square(cbd, N()) && s < N() && crt < N() && Patched(m, N(), s, cbd[s], cbd)
      && Tentative(m, N(), s, cbd[s], visited, {crt}) && cbd[s][crt].Fin?
    }

    /** One iteration: relax the links of crt and settle the next node. */
    method Advance(s: nat, crt: nat, visited: set<nat>, ghost m: seq<seq<Dist>>) returns (next: Option<nat>)
      requires Searching(m, s, visited, crt)
      modifies this`cbd
      ensures next.Some? ==> next.value < N() && next.value !in visited
      ensures next.Some? ==> Searching(m, s, visited + {next.value}, next.value)
      ensures next.None? ==> Square(cbd, N()) && Updated(m, N(), s, cbd) && Tentative(m, N(), s, cbd[s], visited, {})
      ensures next.None? ==> forall y: nat :: y < N() && y !in visited ==> cbd[s][y].Inf?
    {
      hide Tentative, Patched, Updated;
      RelaxFrom(s, crt, m, visited);
      next := NextNode(s, visited);
      if next.Some? {
        Settle(m, N(), s, cbd[s], visited, next.value);
      } else {
        SearchUpdates(m, N(), s, cbd, visited, {});
      }
    }

    /** The main loop of UpdateDistance. */
    method VisitTargets(s: nat, nodesToVisit: nat, ghost m: seq<seq<Dist>>, ghost targets: set<nat>)
      returns (r: UpdateResult)
      requires Searching(m, s, {}, s) && Square(m, N())
      requires s < |bunch| && s < |cluster| && targets == bunch[s] + cluster[s] && nodesToVisit == |targets|
      requires forall x: nat :: x in targets ==> x < N()
      modifies this`cbd
      ensures Square(cbd, N()) && Updated(m, N(), s, cbd) && r != AlreadyKnown
      ensures forall x: nat :: x in targets ==> Shortest(m, N(), s, x, cbd[s][x])
      ensures r.Completed? <==> forall x: nat :: x in targets ==> Reachable(m, N(), s, x)
    {
      hide Tentative, Updated, Shortest, Reachable, Patched;
      var visited: set<nat>, nodesVisited, crt: nat := {}, 0, s;
      while nodesVisited < nodesToVisit
        invariant Searching(m, s, visited, crt)
        invariant nodesVisited == |visited * targets| && visited <= Below(N())
        decreases Below(N()) - visited
      {
        var next := Advance(s, crt, visited, m);
        if next.None? {
          GivesUp(m, N(), s, cbd[s], visited, targets);
          return NilNode;
        }
        CountStep(visited, next.value, targets);
        visited := visited + {next.value};
        if next.value in bunch[s] || next.value in cluster[s] {
          nodesVisited := nodesVisited + 1;
        }
        crt := next.value;
      }
      AllCounted(visited, targets);
      SearchUpdates(m, N(), s, cbd, visited, {crt});
      return Completed;
    }

    /** Drops b from the bunch of a; both loops of RemoveLinks end in this. */
    method Drop(a: nat, b: nat)
      requires Prunable(View()) && a < N() && b < N() && a != b && Some(b) !in pDist[a]
      modifies this`optBunch, this`optCluster, this`cbd
      ensures Dropped(old(View()), View(), a, b) && Prunable(View())
    {
      ghost var before := View();
      optBunch := optBunch[a := optBunch[a] - {b}];
      optCluster := optCluster[b := optCluster[b] - {a}];
      cbd := cbd[a := cbd[a][b := Inf]];
      cbd := cbd[b := cbd[b][a := Inf]];
      DropKeeps(before, View(), a, b);
    }

    method CurrentBridges(root: nat) returns (bridges: set<(nat, nat)>)
      requires Prunable(View()) && root < N()
      ensures Marks(View(), root, bridges)
    {
      LinksUndirected(View());
      var order := Bridges.MapOrder(Links(View()));
      bridges := Bridges.GetBridges(Links(View()), order, root);
      assert MarksOf(Links(View()), order, root, bridges);
    }

    /** Links are only ever taken away. */
    twostate predicate Shrunk()
      reads this
    {
      && |optBunch| == |old(optBunch)| && |optCluster| == |old(optCluster)|
      && (forall u: nat :: u < |optBunch| ==> optBunch[u] <= old(optBunch)[u])
      && (forall u: nat :: u < |optCluster| ==> optCluster[u] <= old(optCluster)[u])
    }

    /** The loop over cluster priorities (OptType 1).  It takes away exactly as many cluster links of
        a as it counts, never more than needed, and stops above max only when every remaining one is
        a pivot link or a bridge.  No link goes that is marked as a bridge at the time. */
    method PruneCluster(a: nat, root: nat, max: int, nredges: int, bridges: set<(nat, nat)>)
      returns (left: int, bridges': set<(nat, nat)>)
      requires Prunable(View()) && Marks(View(), root, bridges) && a < N() && root < N()
      modifies this`optBunch, this`optCluster, this`cbd
      ensures Prunable(View()) && Marks(View(), root, bridges') && Shrunk() && a < |optCluster|
      ensures Pruned(old(View()), View(), root) && a < |optBunch| && optBunch[a] == old(optBunch)[a]
      ensures nredges - left == |old(optCluster)[a]| - |optCluster[a]| && (nredges > max ==> left >= max)
      ensures left > max && |pDist| > 0 ==> ClusterBlocked(View(), a, |pDist[0]| + 1, 0)
      ensures nredges <= max ==> View() == old(View())
    {
      hide Prunable, Marks, ClusterBlocked, Dropped, Pruned;
      left, bridges' := nredges, bridges;
      var priority := -1;
      PruneStart(View(), root, a);
      while left > max
        invariant Prunable(View()) && Marks(View(), root, bridges') && Shrunk() && a < |optCluster| && -1 <= priority
        invariant Pruned(old(View()), View(), root) && a < |optBunch| && optBunch[a] == old(optBunch)[a]
        invariant nredges - left == |old(optCluster)[a]| - |optCluster[a]| && (nredges > max ==> left >= max)
        invariant left > max ==> ClusterBlocked(View(), a, priority + 1, 0)
        invariant nredges <= max ==> left <= max && View() == old(View())
        decreases |pDist[0]| + 2 - priority
      {
        PrunableShape(View());
        priority := priority + 1;
        ghost var g := View();
        left, bridges' := PruneClusterPass(a, root, max, left, bridges', priority);
        PrunedTrans(old(View()), g, View(), root);
        if left <= max || priority > |pDist[0]| {
          if left > max { LowerPriorities(View(), a, |pDist[0]| + 1, priority + 1); }
          break;
        }
      }
    }

    /** Takes c out of the cluster of a and finds the bridges again. */
    method CutCluster(a: nat, c: nat, root: nat, ghost bridges: set<(nat, nat)>, ghost priority: nat)
      returns (bridges': set<(nat, nat)>)
      requires Prunable(View()) && Marks(View(), root, bridges) && root < N() && ClusterBlocked(View(), a, priority, c)
      requires a < N() && c < N() && |optBunch| == |optCluster| == |pDist| == N()
      requires c in optCluster[a] && Some(a) !in pDist[c] && c != a && (a, c) !in bridges
      modifies this`optBunch, this`optCluster, this`cbd
      ensures Prunable(View()) && Marks(View(), root, bridges') && Shrunk() && Pruned(old(View()), View(), root)
      ensures optCluster == old(optCluster)[a := old(optCluster)[a] - {c}] && optBunch[a] == old(optBunch)[a]
      ensures ClusterBlocked(View(), a, priority, c)
    {
      hide Prunable, Marks, ClusterBlocked, Dropped, Pruned;
      ghost var g := View();
      Drop(c, a);
      DroppedFacts(g, View(), c, a);
      PruneStart(g, root, a);
      PrunedFurther(g, g, View(), root, c, a, bridges);
      ClusterBlockedStays(g, View(), a, c, priority, c);
      bridges' := CurrentBridges(root);
    }

    /** The nodes of one priority level. */
    method PruneClusterPass(a: nat, root: nat, max: int, nredges: int, bridges: set<(nat, nat)>, priority: nat)
      returns (left: int, bridges': set<(nat, nat)>)
      requires Prunable(View()) && Marks(View(), root, bridges) && a < N() && root < N() && nredges > max
      requires ClusterBlocked(View(), a, priority, 0) && View().Shaped()
      modifies this`optBunch, this`optCluster, this`cbd
      ensures Prunable(View()) && Marks(View(), root, bridges') && Shrunk() && View().Shaped()
      ensures Pruned(old(View()), View(), root) && optBunch[a] == old(optBunch)[a]
      ensures nredges - left == |old(optCluster)[a]| - |optCluster[a]| && left >= max
      ensures left > max ==> ClusterBlocked(View(), a, priority + 1, 0)
      ensures forall c: nat :: c in old(optCluster)[a] && c !in optCluster[a] ==> c < N() && level[c] == priority
    {
      hide Prunable, Marks, ClusterBlocked, Pruned;
      left, bridges' := nredges, bridges;
      PruneStart(View(), root, a);
      for c := 0 to N()
        invariant Prunable(View()) && Marks(View(), root, bridges') && Shrunk() && View().Shaped() && left > max
        invariant Pruned(old(View()), View(), root) && optBunch[a] == old(optBunch)[a]
        invariant nredges - left == |old(optCluster)[a]| - |optCluster[a]|
        invariant ClusterBlocked(View(), a, priority, c)
        invariant forall x: nat :: x in old(optCluster)[a] && x !in optCluster[a] ==> x < N() && level[x] == priority
      {
        if c in optCluster[a] && level[c] == priority {
          if Some(a) in pDist[c] || c == a || (a, c) in bridges' {
            ClusterBlockedStep(View(), root, a, priority, c, bridges');
            continue;
          }
          ghost var g := View();
          bridges' := CutCluster(a, c, root, bridges', priority);
          PrunedTrans(old(View()), g, View(), root);
          PrunableShape(View());
          left := left - 1;
          if left <= max {
            break;
          }
        }
        ClusterBlockedStep(View(), root, a, priority, c, bridges');
      }
      if left > max { ClusterBlockedNext(View(), a, priority); }
    }

    /** One pass of the bunch loop: it removes at most one link, of the level that nrPerLevel and the
        priority arrive at, and none that is marked as a bridge.  If it removes none, only links that can
        go stay listed; then a listed link that can go is below the level the pass began with, and the
        priority has sunk, unless something on that level had to be struck off first. */
    method PruneBunchPass(a: nat, root: nat, bridges: set<(nat, nat)>, nrPerLevel: seq<set<nat>>, priority: int,
                          nredges: int)
      returns (bridges': set<(nat, nat)>, nrPerLevel': seq<set<nat>>, priority': int, left: int)
      requires Prunable(View()) && Marks(View(), root, bridges) && a < N() && root < N() && |nrPerLevel| == 3
      requires Tallied(View(), a, nrPerLevel)
      modifies this`optBunch, this`optCluster, this`cbd
      ensures Prunable(View()) && Marks(View(), root, bridges') && Shrunk() && |nrPerLevel'| == 3
      ensures Pruned(old(View()), View(), root) && |optCluster| == N() && optCluster[a] == old(optCluster)[a]
      ensures nredges - left == |old(optBunch)[a]| - |optBunch[a]| && nredges - 1 <= left <= nredges
      ensures forall b :: b in old(optBunch)[a] && b !in optBunch[a] ==>
                b < N() && level[b] == priority' && Some(b) !in pDist[a] && (a, b) !in bridges
      ensures Tallied(View(), a, nrPerLevel') && (Topped(nrPerLevel, priority) ==> Topped(nrPerLevel', priority'))
      ensures left == nredges ==>
                View() == old(View()) && bridges' == bridges &&
                Scanned(View(), a, bridges, nrPerLevel, priority, nrPerLevel', priority', N())
      ensures left != nredges ==>
                exists b :: b in old(optBunch)[a] && b < N() && level[b] == priority' &&
                  Dropped(old(View()), View(), a, b)
      ensures left == nredges && Topped(nrPerLevel, priority) ==>
                forall c: nat :: Listed(View(), a, bridges, nrPerLevel, c) ==>
                  && level[c] <= priority' && level[c] < priority
                  && (Clean(View(), a, bridges, nrPerLevel, priority) ==> priority' < priority)
      ensures |pDist| > 0 && ClusterBlocked(old(View()), a, |pDist[0]| + 1, 0) ==>
                ClusterBlocked(View(), a, |pDist[0]| + 1, 0)
    {
      hide Prunable, Marks, Pruned, Dropped, Scanned, Tallied, Topped, Clean, Kept, Listed, ClusterBlocked;
      bridges', nrPerLevel', priority', left := bridges, nrPerLevel, priority, nredges;
      PruneStart(View(), root, a);
      ghost var g := View();
      NotOwnBunch(g, a);
      TalliedLevels(g, a, nrPerLevel);
      ScanStarts(g, a, bridges, nrPerLevel, priority);
      for b := 0 to N()
        invariant View() == g && left == nredges && |nrPerLevel'| == 3 && bridges' == bridges
        invariant Scanned(g, a, bridges, nrPerLevel, priority, nrPerLevel', priority', b)
      {
        if b in optBunch[a] {
          if Some(b) in pDist[a] || b == a || (a, b) in bridges' {
            ScanStrikes(g, root, a, bridges, nrPerLevel, priority, nrPerLevel', priority', b);
            nrPerLevel' := nrPerLevel'[level[b] := nrPerLevel'[level[b]] - {b}];
            continue;
          }
          ghost var before := priority';
          if !(0 <= priority' < 3) || |nrPerLevel'[priority']| == 0 {
            priority' := priority' - 1;
          }
          if level[b] != priority' {
            ScanSkips(g, a, bridges, nrPerLevel, priority, nrPerLevel', before, b);
            continue;
          }
          ghost var listed := nrPerLevel';
          nrPerLevel' := nrPerLevel'[priority' := nrPerLevel'[priority'] - {b}];
          bridges' := CutBunch(a, b, root, bridges, nrPerLevel, priority, listed, before);
          left := left - 1;
          return;
        }
        ScanPasses(g, a, bridges, nrPerLevel, priority, nrPerLevel', priority', b);
      }
      ScanEnds(g, a, bridges, nrPerLevel, priority, nrPerLevel', priority');
    }

    /** Takes b out of the bunch of a and finds the bridges again; nr' and priority' are what the pass has
        made of nr and priority when it comes to b. */
    method CutBunch(a: nat, b: nat, root: nat, ghost bridges: set<(nat, nat)>, ghost nr: seq<set<nat>>,
                    ghost priority: int, ghost nr': seq<set<nat>>, ghost priority': int)
      returns (bridges': set<(nat, nat)>)
      requires Prunable(View()) && Marks(View(), root, bridges) && root < N() && a < N() && b < N() && |nr'| == 3
      requires |optBunch| == |optCluster| == |pDist| == N()
      requires Removable(View(), a, b, bridges) && Scanned(View(), a, bridges, nr, priority, nr', priority', b)
      requires level[b] < 3 && level[b] == Sunk(nr', priority')
      modifies this`optBunch, this`optCluster, this`cbd
      ensures Prunable(View()) && Marks(View(), root, bridges') && Shrunk() && Pruned(old(View()), View(), root)
      ensures Dropped(old(View()), View(), a, b)
      ensures optBunch == old(optBunch)[a := old(optBunch)[a] - {b}]
      ensures |optCluster| == N() && optCluster[a] == old(optCluster)[a]
      ensures Tallied(View(), a, nr'[level[b] := nr'[level[b]] - {b}])
      ensures Topped(nr, priority) ==> Topped(nr'[level[b] := nr'[level[b]] - {b}], level[b])
      ensures |pDist| > 0 && ClusterBlocked(old(View()), a, |pDist[0]| + 1, 0) ==>
                ClusterBlocked(View(), a, |pDist[0]| + 1, 0)
    {
      hide Prunable, Marks, Pruned, Dropped, Scanned, Tallied, Topped, ClusterBlocked;
      ghost var g := View();
      PruneStart(g, root, a);
      Drop(a, b);
      DroppedFacts(g, View(), a, b);
      ScanRemoves(g, View(), a, bridges, nr, priority, nr', priority', b);
      PrunedFurther(g, g, View(), root, a, b, bridges);
      if ClusterBlocked(g, a, |pDist[0]| + 1, 0) {
        ClusterBlockedKept(g, View(), a, b, a, |pDist[0]| + 1);
      }
      bridges' := CurrentBridges(root);
    }

    method CountsPerLevel(a: nat) returns (nrPerLevel: seq<set<nat>>)
      requires View().Shaped() && a < N() && forall u: nat :: u < N() ==> level[u] < 3
      ensures |nrPerLevel| == 3
      ensures forall l: nat, x: nat :: l < 3 ==> (x in nrPerLevel[l] <==> x in optBunch[a] && level[x] == l)
    {
      nrPerLevel := [{}, {}, {}];
      for x := 0 to N()
        invariant |nrPerLevel| == 3
        invariant forall l: nat, y: nat :: l < 3 ==>
          (y in nrPerLevel[l] <==> y < x && y in optBunch[a] && level[y] == l)
      {
        if x in optBunch[a] {
          nrPerLevel := nrPerLevel[level[x] := nrPerLevel[level[x]] + {x}];
        }
      }
      assert forall y: nat :: y in optBunch[a] ==> y < N();
    }

    ghost function LinkCount(a: nat): nat
      reads this
      requires a < |optBunch| && a < |optCluster|
    {
      |optBunch[a]| + |optCluster[a]|
    }

    /** How many links of a are left, the way RemoveLinks counts: in cluster mode from the size of the
        bunch and the cluster as built, less what has been removed since there were that many before. */
    ghost function LinksLeft(a: nat, optType: int, before: nat): int
      reads this
      requires a < |bunch| && a < |cluster| && a < |optBunch| && a < |optCluster|
    {
      if optType == 1 then |bunch[a] + cluster[a]| - (before - LinkCount(a)) else |optBunch[a]|
    }

    /** Pruning around one node; passes bounds how long its bunch loop, which need not end, is followed.
        Followed long enough, it is done unless every remaining bunch link is a pivot link or a bridge. */
    method PruneNode(a: nat, root: nat, max: int, optType: int, passes: nat, bridges0: set<(nat, nat)>)
      returns (done: bool, bridges: set<(nat, nat)>)
      requires Prunable(View()) && Marks(View(), root, bridges0) && a < N() && root < N()
      requires forall u: nat :: u < N() ==> level[u] < 3
      modifies this`optBunch, this`optCluster, this`cbd
      ensures Prunable(View()) && Marks(View(), root, bridges) && Shrunk() && View().Shaped()
      ensures Pruned(old(View()), View(), root)
      ensures done <==> LinksLeft(a, optType, old(LinkCount(a))) <= max
      ensures !done && LevelsFit() && passes >= (|pDist[0]| + 1) * (|old(optBunch)[a]| + 1) ==> BunchKept(View(), a)
      // never below max, and cluster links first if that is asked for
      ensures if old(LinksLeft(a, optType, LinkCount(a))) <= max then View() == old(View())
              else LinksLeft(a, optType, old(LinkCount(a))) >= max
      ensures optType != 1 ==> optCluster[a] == old(optCluster)[a]
      ensures optType == 1 && optBunch[a] != old(optBunch)[a] && |pDist| > 0 ==>
                ClusterBlocked(View(), a, |pDist[0]| + 1, 0)
    {
      hide Prunable, Marks, Pruned, ClusterBlocked, BunchKept, Kept;
      PruneStart(View(), root, a);
      bridges := bridges0;
      var nredges, known, knownSet := Counts(a);
      if optType != 1 {
        nredges := |optBunch[a]|;
      }
      var nrPerLevel := CountsPerLevel(a);
      var left: int := nredges;
      if optType == 1 {
        left, bridges := PruneCluster(a, root, max, left, bridges);
      }
      ghost var g := View();
      PrunableShape(g);
      AllListed(g, a, nrPerLevel);
      left, bridges := PruneBunch(a, root, max, passes, bridges, nrPerLevel, left);
      PrunedTrans(old(View()), g, View(), root);
      done := left <= max;
    }

    /** Levels are below the number of pivots, as CreateLocalityGraph builds them. */
    ghost predicate LevelsFit()
      reads this
    {
      |pDist| > 0 && forall u: nat :: u < N() ==> level[u] < |pDist[0]|
    }

    /** The bunch loop around a. */
    method PruneBunch(a: nat, root: nat, max: int, passes: nat, bridges0: set<(nat, nat)>, nrPerLevel0: seq<set<nat>>,
                      nredges: int)
      returns (left: int, bridges: set<(nat, nat)>)
      requires Prunable(View()) && Marks(View(), root, bridges0) && a < N() && root < N() && View().Shaped()
      requires |nrPerLevel0| == 3 && Tallied(View(), a, nrPerLevel0)
      modifies this`optBunch, this`optCluster, this`cbd
      ensures Prunable(View()) && Marks(View(), root, bridges) && Shrunk() && View().Shaped()
      ensures Pruned(old(View()), View(), root) && optCluster[a] == old(optCluster)[a]
      ensures nredges - left == |old(optBunch)[a]| - |optBunch[a]|
      ensures left > max && LevelsFit() && passes >= (|pDist[0]| + 1) * (|old(optBunch)[a]| + 1) ==>
                BunchKept(View(), a)
      ensures if nredges <= max then left == nredges && View() == old(View()) else left >= max
      ensures |pDist| > 0 && ClusterBlocked(old(View()), a, |pDist[0]| + 1, 0) ==>
                ClusterBlocked(View(), a, |pDist[0]| + 1, 0)
    {
      hide Prunable, Marks, Pruned, BunchKept, Tallied, Topped, Scanned, Dropped, Advancing, Clean, Listed;
      hide ClusterBlocked, InBunchLoop;
      bridges, left := bridges0, nredges;
      var nrPerLevel, priority: int, k := nrPerLevel0, |pDist[0]|, 0;
      ghost var idle: nat, top := 0, |pDist[0]|;
      EntersLoop(View(), a, root, bridges, nrPerLevel, nredges, max);
      if LevelsFit() { StartsAdvancing(View(), a, bridges, nrPerLevel, top); }
      while left > max && k < passes
        invariant InBunchLoop(old(View()), View(), a, root, bridges, nrPerLevel, nredges, left, max) && k <= passes
        invariant a < |optBunch| && |optBunch[a]| <= |old(optBunch)[a]|
        invariant LevelsFit() ==>
          Advancing(View(), a, bridges, nrPerLevel, priority, k, |old(optBunch)[a]| - |optBunch[a]|, idle, top)
        decreases passes - k
      {
        ghost var g, was, nr, pr, idled, wasLeft := View(), bridges, nrPerLevel, priority, idle, left;
        LoopFacts(old(View()), g, a, root, bridges, nrPerLevel, nredges, left, max);
        bridges, nrPerLevel, priority, left := PruneBunchPass(a, root, bridges, nrPerLevel, priority, left);
        LoopGoesOn(old(View()), g, View(), a, root, was, nr, bridges, nrPerLevel, nredges, wasLeft, left, max);
        idle := if left == wasLeft then idle + 1 else 0;
        if LevelsFit() {
          Advances(g, View(), root, a, was, nr, pr, bridges, nrPerLevel, priority, k, |old(optBunch)[a]|, idled, top,
                   left == wasLeft);
        }
        k := k + 1;
      }
      LoopFacts(old(View()), View(), a, root, bridges, nrPerLevel, nredges, left, max);
      if left > max && LevelsFit() && passes >= (top + 1) * (|old(optBunch)[a]| + 1) {
        RunsOut(View(), a, bridges, nrPerLevel, priority, k, |old(optBunch)[a]|, idle, top);
      }
    }

    /** One round of RemoveLinks: a node is pruned and its distances are updated. */
    method PruneAt(a: nat, root: nat, max: int, optType: int, passes: nat, bridges0: set<(nat, nat)>)
      returns (r: PruneResult, bridges: set<(nat, nat)>)
      requires Prunable(View()) && Marks(View(), root, bridges0) && Metric(d, N()) && a < N() && root < N()
      requires forall u: nat :: u < N() ==> level[u] < 3
      modifies this`optBunch, this`optCluster, this`cbd
      ensures Prunable(View()) && Marks(View(), root, bridges) && Shrunk() && View().Shaped()
      ensures Pruned(old(View()), View(), root)
      ensures r == Finished ==> LinksLeft(a, optType, old(LinkCount(a))) <= max
      ensures r == StillRunning ==> LinksLeft(a, optType, old(LinkCount(a))) > max && TooMany(a, max, optType)
      ensures r == StillRunning && LevelsFit() && passes >= (|pDist[0]| + 1) * N() ==> Stuck(a, max, optType)
      ensures if old(LinksLeft(a, optType, LinkCount(a))) <= max
              then optBunch == old(optBunch) && optCluster == old(optCluster)
              else LinksLeft(a, optType, old(LinkCount(a))) >= max
      ensures r != StillRunning ==> JustUpdated(a)
      ensures r == NilPanic ==> OutOfReach(a)
    {
      hide Prunable, Metric, Marks, Pruned, BunchKept, Refreshed, OutOfReach, ClusterBlocked;
      BunchCard(View(), a);
      var done;
      done, bridges := PruneNode(a, root, max, optType, passes, bridges0);
      if !done {
        ghost var size := |old(optBunch)[a]| + 1;
        if LevelsFit() { TimesGrows(|pDist[0]| + 1, size, N()); }
        SubsetCard(optBunch[a], old(optBunch)[a]);
        SubsetCard(optCluster[a], old(optCluster)[a]);
        return StillRunning, bridges;
      }
      ghost var g := View();
      var u := UpdatePruned(a);
      SameMarks(g, View(), root, bridges);
      PrunedNothing(g, View(), root);
      PrunedTrans(old(View()), g, View(), root);
      PrunableShape(View());
      r := if u == NilNode then NilPanic else Finished;
    }

    /** What UpdateDistance makes of the matrix m for node s. */
    ghost predicate Refreshed(m: seq<seq<Dist>>, s: nat)
      reads this
    {
      && s < N() && s < |bunch| && s < |cluster| && Square(m, N()) && Square(cbd, N()) && Updated(m, N(), s, cbd)
      && if |bunch[s] + cluster[s]| == |Known(m, N(), s)| then cbd == m
         else forall x: nat :: x in bunch[s] || x in cluster[s] ==> x < N() && Shortest(m, N(), s, x, cbd[s][x])
    }

    /** The distances of s have been updated last. */
    ghost predicate JustUpdated(s: nat)
      reads this
    {
      exists m :: Refreshed(m, s)
    }

    /** Some bunch or cluster node of s has no distance. */
    ghost predicate OutOfReach(s: nat)
      reads this
    {
      && s < N() && s < |bunch| && s < |cluster| && Square(cbd, N())
      && exists x: nat :: (x in bunch[s] || x in cluster[s]) && x < N() && cbd[s][x].Inf?
    }

    /** Too many links of a are left. */
    ghost predicate TooMany(a: nat, max: int, optType: int)
      reads this
    {
      && a < |optBunch| && a < |bunch| && a < |cluster|
      && (if optType == 1 then |bunch[a] + cluster[a]| else |optBunch[a]|) > max
    }

    /** The bunch loop around a can go on for ever: too many links are left and each of them has to stay. */
    ghost predicate Stuck(a: nat, max: int, optType: int)
      reads this
    {
      TooMany(a, max, optType) && BunchKept(View(), a)
    }

    /** RemoveLinks, followed for at most the given number of passes of each node's bunch loop.
        Whatever point it is stopped at, and whether or not a distance update hits a nil node, every
        step has kept the pruning invariant and taken away a link that was neither a pivot link nor
        marked as a bridge.  When it finishes, every node's count of links is down to max; followed for
        enough passes it finishes or panics unless some node is stuck. */
    method RemoveLinks(root: nat, max: int, optType: int, passes: nat) returns (r: PruneResult)
      requires Prunable(View()) && Metric(d, N()) && root < N() && |optBunch| == |optCluster| == N()
      requires forall u: nat :: u < N() ==> level[u] < 3
      modifies this`optBunch, this`optCluster, this`cbd
      ensures Prunable(View()) && Shrunk() && View().Shaped() && Pruned(old(View()), View(), root)
      ensures r == Finished ==> forall a: nat :: a < N() ==>
                LinksLeft(a, optType, |old(optBunch)[a]| + |old(optCluster)[a]|) <= max
      ensures r == StillRunning ==> exists a: nat :: TooMany(a, max, optType)
      ensures r == StillRunning && LevelsFit() && passes >= (|pDist[0]| + 1) * N() ==>
                exists a: nat :: Stuck(a, max, optType)
      ensures r == NilPanic ==> exists a: nat :: OutOfReach(a)
      ensures r == Finished ==> JustUpdated(N() - 1)
    {
      hide Prunable, Metric, Marks, Pruned, LevelsFit, TooMany, Stuck, JustUpdated, OutOfReach, AllDown;
      PruneStart(View(), root, root);
      NoneIsDown(View(), optType, max);
      var bridges := CurrentBridges(root);
      for a := 0 to N()
        invariant Prunable(View()) && Marks(View(), root, bridges) && Shrunk() && View().Shaped()
        invariant Pruned(old(View()), View(), root)
        invariant AllDown(old(View()), View(), a, optType, max)
        invariant a > 0 ==> JustUpdated(a - 1)
      {
        ghost var before := View();
        r, bridges := PruneAt(a, root, max, optType, passes, bridges);
        PrunedTrans(old(View()), before, View(), root);
        if r != Finished {
          return;
        }
        OneMoreDown(old(View()), before, View(), a, optType, max);
      }
      AllAreDown(old(View()), View(), optType, max);
      forall u: nat | u < N() ensures LinksLeft(u, optType, |old(optBunch)[u]| + |old(optCluster)[u]|) <= max {
        assert LeftOf(old(View()), View(), u, optType) <= max;
      }
      r := Finished;
    }

    /** A distance update leaves the pruning invariant in place. */
    method UpdatePruned(a: nat) returns (r: UpdateResult)
      requires Prunable(View()) && Metric(d, N()) && a < N()
      modifies this`cbd
      ensures Prunable(View()) && Refreshed(old(cbd), a)
      ensures r == NilNode ==> OutOfReach(a)
    {
      hide Prunable, Metric, Distances, NeverUnder, Shortest, Reachable, Patched, Achieved, Refreshed, OutOfReach;
      ghost var g := View();
      PrunableShape(g);
      r := UpdateDistance(a);
      PatchedNeverUnder(g.cbd, d, N(), a, cbd[a], cbd);
      RedistanceKeeps(g, View());
    }

    /** genTrees up to the distance matrix: build, prune if asked to, query the oracle for all pairs.
        No query fails on a graph whose pruning has finished; no finite answer is below the distance;
        without pruning every answer is within the stretch.  Pruning takes away permitted links only and
        leaves no node more than max of them; followed for enough passes it finishes or panics unless
        some node is stuck. */
    method GenDistances(root: nat, levels: nat, optimized: bool, max: int, optType: int, passes: nat)
      returns (r: PruneResult, dist2: Option<seq<seq<Dist>>>, ghost built: Graph)
      requires Fresh() && Metric(d, N()) && LevelsOk(View(), levels) && levels >= 2 && root < N()
      requires optimized ==> levels <= 3
      modifies this
      ensures !optimized ==> r == Finished && View() == built
      ensures r == Finished <==> dist2.Some?
      ensures dist2.Some? ==> Square(dist2.value, N())
      ensures dist2.Some? ==> forall u: nat, v: nat :: u < N() && v < N() && dist2.value[u][v].Fin? ==>
                d[u][v] <= dist2.value[u][v].v
      ensures !optimized ==> forall u: nat, v: nat :: u < N() && v < N() ==>
                dist2.value[u][v].Fin? && dist2.value[u][v].v <= Times(2 * levels - 1, d[u][v])
      ensures Built(built, levels) && built.level == level && Pruned(built, View(), root) && View().Shaped()
      ensures optimized && r == Finished ==> forall a: nat :: a < N() ==>
                LinksLeft(a, optType, |built.bunch[a]| + |built.cluster[a]|) <= max
      ensures r == StillRunning ==> exists a: nat :: TooMany(a, max, optType)
      ensures r == StillRunning && passes >= (levels + 1) * N() ==> exists a: nat :: Stuck(a, max, optType)
      ensures r == NilPanic ==> exists a: nat :: OutOfReach(a)
    {
      hide Prunable, Metric, Times, Pruned, Stuck, TooMany, OutOfReach;
      CreateLocalityGraph(levels);
      built := View();
      BuiltIsPrunable(built, levels);
      PrunableShape(built);
      PrunedNothing(built, built, root);
      r := Finished;
      if optimized {
        r := RemoveLinks(root, max, optType, passes);
        if r != Finished {
          return r, None, built;
        }
      }
      dist2 := OracleMatrix(built, levels);
    }

    /** The oracle for all pairs, on the graph as built or on what pruning has left of it. */
    method OracleMatrix(ghost built: Graph, levels: nat) returns (dist2: Option<seq<seq<Dist>>>)
      requires Prunable(View()) && Prunable(built) && Built(built, levels) && LevelsOk(built, levels)
      requires Metric(d, N()) && levels >= 2
      requires built.level == level && built.d == d && built.bunch == bunch && built.pDist == pDist
      ensures dist2.Some? && Square(dist2.value, N())
      ensures forall u: nat, v: nat :: u < N() && v < N() && dist2.value[u][v].Fin? ==> d[u][v] <= dist2.value[u][v].v
      ensures View() == built ==> forall u: nat, v: nat :: u < N() && v < N() ==>
                dist2.value[u][v].Fin? && dist2.value[u][v].v <= Times(2 * levels - 1, d[u][v])
    {
      hide Prunable, Metric, Built, LevelsOk, Times, Approx, Climb;
      PrunableShape(View());
      forall u: nat, v: nat | u < N() && v < N() && u != v ensures Approx(View(), u, v).Some? {
        StillAnswers(built, View(), levels, u, v);
      }
      dist2 := ApproximateDistanceOracle();
      forall u: nat, v: nat | u < N() && v < N()
        ensures dist2.value[u][v].Fin? ==> d[u][v] <= dist2.value[u][v].v
        ensures View() == built ==> dist2.value[u][v].Fin? && dist2.value[u][v].v <= Times(2 * levels - 1, d[u][v])
      {
        Triangle(d, N(), u, v, u);
        if u == v {
          TimesMono(0, 2 * levels - 1, d[u][v]);
          TimesPlus(0, 0, d[u][v]);
        } else {
          AnswersNeverUnder(View(), u, v);
          if View() == built { Stretch(built, levels, u, v); }
        }
      }
    }
  }

  lemma PrunableShape(g: Graph)
    requires Prunable(g)
    ensures g.Shaped() && Distances(g.cbd, g.N()) && NeverUnder(g.cbd, g.d, g.N())
  {
  }

  /** How many links of a are left of those in g0, the way RemoveLinks counts. */
  ghost function LeftOf(g0: Graph, g: Graph, a: nat, optType: int): int
    requires a < |g0.optBunch| && a < |g0.optCluster| && a < |g.optBunch| && a < |g.optCluster|
    requires a < |g.bunch| && a < |g.cluster|
  {
    if optType == 1
    then |g.bunch[a] + g.cluster[a]| - (|g0.optBunch[a]| + |g0.optCluster[a]| - |g.optBunch[a]| - |g.optCluster[a]|)
    else |g.optBunch[a]|
  }

  ghost predicate SameSize(g0: Graph, g: Graph) {
    && g.N() == |g0.optBunch| == |g0.optCluster| == |g.optBunch| == |g.optCluster| == |g.bunch| == |g.cluster|
  }

  /** The first k nodes are down to max. */
  ghost predicate AllDown(g0: Graph, g: Graph, k: nat, optType: int, max: int) {
    SameSize(g0, g) && forall u: nat :: u < k && u < g.N() ==> LeftOf(g0, g, u, optType) <= max
  }

  lemma OneMoreDown(g0: Graph, g1: Graph, g: Graph, a: nat, optType: int, max: int)
    requires AllDown(g0, g1, a, optType, max) && SameSize(g1, g) && g1.bunch == g.bunch && g1.cluster == g.cluster
    requires a < g.N() && LeftOf(g1, g, a, optType) <= max && g1.N() == g.N()
    requires forall u: nat :: u < g.N() ==> g.optBunch[u] <= g1.optBunch[u] <= g0.optBunch[u]
    requires forall u: nat :: u < g.N() ==> g.optCluster[u] <= g1.optCluster[u] <= g0.optCluster[u]
    ensures AllDown(g0, g, a + 1, optType, max)
  {
    forall u: nat | u < a + 1 && u < g.N() ensures LeftOf(g0, g, u, optType) <= max {
      Smaller(g.optBunch[u], g1.optBunch[u], g0.optBunch[u]);
      Smaller(g.optCluster[u], g1.optCluster[u], g0.optCluster[u]);
      if u < a { assert LeftOf(g0, g1, u, optType) <= max; }
    }
  }

  lemma AllAreDown(g0: Graph, g: Graph, optType: int, max: int)
    requires AllDown(g0, g, g.N(), optType, max)
    ensures SameSize(g0, g) && forall u: nat :: u < g.N() ==> LeftOf(g0, g, u, optType) <= max
  {
  }

  lemma NoneIsDown(g: Graph, optType: int, max: int)
    requires g.Shaped()
    ensures AllDown(g, g, 0, optType, max)
  {
  }

  /** The links of g are among those of g0. */
  ghost predicate Fewer(g0: Graph, g: Graph) {
    && |g.optBunch| == |g0.optBunch| && |g.optCluster| == |g0.optCluster|
    && (forall u: nat :: u < |g.optBunch| ==> g.optBunch[u] <= g0.optBunch[u])
    && (forall u: nat :: u < |g.optCluster| ==> g.optCluster[u] <= g0.optCluster[u])
  }

  /** Between two passes of the bunch loop around a that has begun at g0 with nredges links to count. */
  ghost predicate InBunchLoop(g0: Graph, g: Graph, a: nat, root: nat, bridges: set<(nat, nat)>, nr: seq<set<nat>>,
                              nredges: int, left: int, max: int) {
    && Prunable(g) && Marks(g, root, bridges) && Tallied(g, a, nr) && Pruned(g0, g, root) && Fewer(g0, g)
    && a < |g.optBunch| && a < |g.optCluster| && g.optCluster[a] == g0.optCluster[a]
    && nredges - left == |g0.optBunch[a]| - |g.optBunch[a]|
    && (if nredges <= max then left == nredges && g == g0 else left >= max)
    && (|g.pDist| > 0 && ClusterBlocked(g0, a, |g.pDist[0]| + 1, 0) ==> ClusterBlocked(g, a, |g.pDist[0]| + 1, 0))
  }

  lemma EntersLoop(g: Graph, a: nat, root: nat, bridges: set<(nat, nat)>, nr: seq<set<nat>>, nredges: int, max: int)
    requires Prunable(g) && Marks(g, root, bridges) && Tallied(g, a, nr)
    ensures InBunchLoop(g, g, a, root, bridges, nr, nredges, nredges, max) && a < |g.optBunch|
  {
    hide Prunable, Marks, Pruned, ClusterBlocked;
    PrunedNothing(g, g, root);
  }

  lemma LoopFacts(g0: Graph, g: Graph, a: nat, root: nat, bridges: set<(nat, nat)>, nr: seq<set<nat>>,
                  nredges: int, left: int, max: int)
    requires InBunchLoop(g0, g, a, root, bridges, nr, nredges, left, max)
    ensures Prunable(g) && Marks(g, root, bridges) && Tallied(g, a, nr) && Pruned(g0, g, root) && Fewer(g0, g)
    ensures |nr| == 3 && g.Shaped() && g.optCluster[a] == g0.optCluster[a]
    ensures nredges - left == |g0.optBunch[a]| - |g.optBunch[a]|
    ensures if nredges <= max then left == nredges && g == g0 else left >= max
    ensures |g.pDist| > 0 && ClusterBlocked(g0, a, |g.pDist[0]| + 1, 0) ==> ClusterBlocked(g, a, |g.pDist[0]| + 1, 0)
  {
    hide Marks, Pruned, ClusterBlocked;
  }

  lemma LoopGoesOn(g0: Graph, g: Graph, g': Graph, a: nat, root: nat, bridges: set<(nat, nat)>, nr: seq<set<nat>>,
                   bridges': set<(nat, nat)>, nr': seq<set<nat>>, nredges: int, left: int, left': int, max: int)
    requires InBunchLoop(g0, g, a, root, bridges, nr, nredges, left, max) && left > max
    requires Prunable(g') && Marks(g', root, bridges') && Tallied(g', a, nr') && Pruned(g, g', root) && Fewer(g, g')
    requires g'.pDist == g.pDist && g'.optCluster[a] == g.optCluster[a]
    requires left - left' == |g.optBunch[a]| - |g'.optBunch[a]| && left - 1 <= left' <= left
    requires |g.pDist| > 0 && ClusterBlocked(g, a, |g.pDist[0]| + 1, 0) ==> ClusterBlocked(g', a, |g.pDist[0]| + 1, 0)
    ensures InBunchLoop(g0, g', a, root, bridges', nr', nredges, left', max)
  {
    hide Prunable, Marks, Pruned, ClusterBlocked, Tallied;
    PrunedTrans(g0, g, g', root);
  }

  lemma TalliedLevels(g: Graph, a: nat, nr: seq<set<nat>>)
    requires Tallied(g, a, nr)
    ensures forall u: nat :: u < g.N() ==> g.level[u] < 3
  {
  }

  lemma BunchCard(g: Graph, a: nat)
    requires Prunable(g) && a < g.N()
    ensures a < |g.optBunch| && |g.optBunch[a]| + 1 <= g.N()
  {
    NotOwnBunch(g, a);
    SubsetCard(g.optBunch[a] + {a}, Below(g.N()));
  }

  lemma NotOwnBunch(g: Graph, a: nat)
    requires Prunable(g) && a < g.N()
    ensures a < |g.optBunch| && a !in g.optBunch[a]
  {
  }

  lemma AllListed(g: Graph, a: nat, nr: seq<set<nat>>)
    requires g.Shaped() && a < g.N() && |nr| == 3 && forall u: nat :: u < g.N() ==> g.level[u] < 3
    requires forall l: nat, x: nat :: l < 3 ==> (x in nr[l] <==> x in g.optBunch[a] && g.level[x] == l)
    ensures Tallied(g, a, nr)
  {
    forall b: nat | b in g.optBunch[a] ensures b in nr[g.level[b]] { assert b < g.N(); }
    forall l: nat, b: nat | l < 3 && b in nr[l] ensures b in g.optBunch[a] && b < g.N() && g.level[b] == l {}
  }

  lemma StartsAdvancing(g: Graph, a: nat, bridges: set<(nat, nat)>, nr: seq<set<nat>>, top: nat)
    requires Tallied(g, a, nr) && forall u: nat :: u < g.N() ==> g.level[u] < top
    ensures Advancing(g, a, bridges, nr, top, 0, 0, 0, top)
  {
    forall l: nat, b: nat | l < 3 && b in nr[l] ensures l < top { assert g.level[b] == l; }
  }

  /** One pass of the bunch loop, with a removal or without. */
  lemma Advances(g: Graph, g': Graph, root: nat, a: nat, bridges: set<(nat, nat)>, nr: seq<set<nat>>, priority: int,
                 bridges': set<(nat, nat)>, nr': seq<set<nat>>, priority': int, k: nat, first: nat, idle: nat, top: nat,
                 same: bool)
    requires a < |g.optBunch| && a < |g'.optBunch| && |g.optBunch[a]| <= first
    requires Advancing(g, a, bridges, nr, priority, k, first - |g.optBunch[a]|, idle, top)
    requires Tallied(g, a, nr) && Prunable(g) && Prunable(g') && Marks(g, root, bridges)
    requires forall u: nat :: u < g.N() ==> g.level[u] < top
    requires same ==> g' == g && bridges' == bridges && Scanned(g, a, bridges, nr, priority, nr', priority', g.N())
    requires !same ==>
               exists b :: b in g.optBunch[a] && Dropped(g, g', a, b) && b < |g.level| && g.level[b] == priority'
    requires Topped(nr, priority) ==> Topped(nr', priority')
    ensures |g'.optBunch[a]| <= first
    ensures Advancing(g', a, bridges', nr', priority', k + 1, first - |g'.optBunch[a]|,
                      if same then idle + 1 else 0, top)
  {
    hide Advancing, Tallied, Marks, Scanned, Topped, Dropped;
    if same {
      IdlePass(g, root, a, bridges, nr, priority, nr', priority', k, first - |g.optBunch[a]|, idle, top);
    } else {
      var b :| b in g.optBunch[a] && Dropped(g, g', a, b) && b < |g.level| && g.level[b] == priority';
      DroppedFacts(g, g', a, b);
      assert g'.optBunch[a] == g.optBunch[a] - {b};
      BusyPass(g, g', a, b, bridges, nr, priority, bridges', nr', priority', k, first - |g.optBunch[a]|, idle, top);
    }
  }

  /** After enough passes the removals cannot have kept up any more. */
  lemma RunsOut(g: Graph, a: nat, bridges: set<(nat, nat)>, nr: seq<set<nat>>, priority: int, k: nat, first: nat,
                idle: nat, top: nat)
    requires a < |g.optBunch| && |g.optBunch[a]| <= first && k >= (top + 1) * (first + 1)
    requires Advancing(g, a, bridges, nr, priority, k, first - |g.optBunch[a]|, idle, top)
    ensures BunchKept(g, a)
  {
    var gone := first - |g.optBunch[a]|;
    TimesGrows(top + 1, gone, first);
    assert (top + 1) * (first + 1) == (top + 1) * first + top + 1;
  }

  lemma TimesGrows(k: nat, x: nat, y: nat)
    requires x <= y
    ensures k * x <= k * y
  {
  }

  lemma Smaller(a: set<nat>, b: set<nat>, c: set<nat>)
    requires a <= b <= c
    ensures |a| <= |b| <= |c|
  {
    SubsetCard(a, b);
    SubsetCard(b, c);
  }

  lemma PruneStart(g: Graph, root: nat, a: nat)
    requires Prunable(g) && a < g.N()
    ensures ClusterBlocked(g, a, 0, 0) && a < |g.optCluster| && a < |g.optBunch| && g.Shaped() && Pruned(g, g, root)
  {
    PrunedNothing(g, g, root);
  }

  lemma LowerPriorities(g: Graph, a: nat, p: nat, q: nat)
    requires ClusterBlocked(g, a, q, 0) && p <= q
    ensures ClusterBlocked(g, a, p, 0)
  {
  }

  lemma DroppedFacts(g: Graph, g': Graph, a: nat, b: nat)
    requires Dropped(g, g', a, b)
    ensures g'.optCluster == g.optCluster[b := g.optCluster[b] - {a}]
    ensures g'.optBunch == g.optBunch[a := g.optBunch[a] - {b}]
    ensures g'.level == g.level
  {
  }

  lemma SameMarks(g: Graph, g': Graph, root: nat, bridges: set<(nat, nat)>)
    requires Marks(g, root, bridges) && g' == g.(cbd := g'.cbd)
    ensures Marks(g', root, bridges) && SameLinks(g, g')
  {
    assert Links(g') == Links(g);
  }

  lemma StillAnswers(built: Graph, g: Graph, levels: nat, u: nat, v: nat)
    requires Prunable(g) && Prunable(built) && Built(built, levels) && LevelsOk(built, levels)
    requires Metric(built.d, built.N()) && levels >= 2
    requires built.level == g.level && built.bunch == g.bunch && built.pDist == g.pDist && g.Shaped()
    requires u < g.N() && v < g.N() && u != v
    ensures Approx(g, u, v).Some?
  {
    hide Prunable, Metric, Built, LevelsOk, Times;
    PrunableShape(built);
    Stretch(built, levels, u, v);
    ClimbUnchanged(built, g, u, v, u, 0);
  }

  lemma PivotIsNode(level: seq<nat>, row: seq<real>, i: nat, p: Option<nat>, a: Dist)
    requires |row| == |level| && IsPivot(level, row, i, p, a)
    ensures p.Some? ==> p.value < |level|
  {
  }

  ghost predicate IsClusterOf(c: set<nat>, bunch: seq<set<nat>>, u: nat, n: nat) {
    |bunch| == n && forall v: nat :: v in c <==> v < n && u in bunch[v] && u != v
  }

  lemma ClusterComplete(c: set<nat>, bunch: seq<set<nat>>, u: nat, n: nat)
    requires |bunch| == n && forall v: nat :: v in c <==> v < n && u in bunch[v] && u != v
    ensures IsClusterOf(c, bunch, u, n)
  {
  }

  datatype PruneResult = Finished | StillRunning | NilPanic

  datatype UpdateResult = AlreadyKnown | Completed | NilNode

  lemma CountStep(visited: set<nat>, x: nat, targets: set<nat>)
    requires x !in visited
    ensures |(visited + {x}) * targets| == |visited * targets| + if x in targets then 1 else 0
  {
    assert (visited + {x}) * targets == visited * targets + ({x} * targets);
    assert {x} * targets == if x in targets then {x} else {};
  }

  lemma AllCounted(visited: set<nat>, targets: set<nat>)
    requires |visited * targets| >= |targets|
    ensures targets <= visited
  {
    if !(targets <= visited) {
      var x :| x in targets && x !in visited;
      CardLess(visited * targets, targets, x);
    }
  }

  lemma CardLess(a: set<nat>, b: set<nat>, x: nat)
    requires a <= b && x in b && x !in a
    ensures |a| < |b|
  {
    assert a <= b - {x};
    SubsetCard(a, b - {x});
  }

  /** Running out of candidates before all targets are counted leaves an unreachable target. */
  lemma GivesUp(m: seq<seq<Dist>>, n: nat, s: nat, row: seq<Dist>, visited: set<nat>, targets: set<nat>)
    requires Tentative(m, n, s, row, visited, {})
    requires forall y: nat :: y < n && y !in visited ==> row[y].Inf?
    requires |visited * targets| < |targets| && forall x :: x in targets ==> x < n
    ensures exists x: nat :: x in targets && !Reachable(m, n, s, x)
    ensures forall x: nat :: x in targets ==> Shortest(m, n, s, x, row[x])
  {
    assert targets <= visited ==> visited * targets == targets;
    var x :| x in targets && x !in visited;
    Stuck(m, n, s, row, visited, x);
    forall y: nat | y in targets ensures Shortest(m, n, s, y, row[y]) {
      if y !in visited { Stuck(m, n, s, row, visited, y); }
    }
  }

  lemma Unrelaxed(m: seq<seq<Dist>>, n: nat, row: seq<Dist>, c: nat)
    ensures RelaxedUpTo(m, n, row, c, 0)
  {
  }
}
