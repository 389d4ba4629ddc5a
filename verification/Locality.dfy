/**
 The locality graph (pivots, bunches, clusters) and the distance oracle that climbs it.
 Node names are indices; d is the matrix of ComputeDist values.
 */
module Locality {

  /** A float64 distance; Inf stands for math.MaxFloat64. */
  datatype Dist = Fin(v: real) | Inf {
    predicate Less(o: Dist) {
      Fin? && (o.Inf? || v < o.v)
    }

    predicate LessEq(o: Dist) {
      o.Inf? || (Fin? && v <= o.v)
    }

    function Plus(o: Dist): Dist {
      if Fin? && o.Fin? then Fin(v + o.v) else Inf
    }
  }

  datatype Option<+T> = None | Some(value: T)

  datatype Graph = Graph(
    level: seq<nat>,
    d: seq<seq<real>>,
    pDist: seq<seq<Option<nat>>>,   // None: the empty name, no node of that level
    aDist: seq<seq<Dist>>,
    bunch: seq<set<nat>>,
    cluster: seq<set<nat>>,
    optBunch: seq<set<nat>>,
    optCluster: seq<set<nat>>,
    cbd: seq<seq<Dist>>)            // ClusterBunchDistances
  {
    function N(): nat { |level| }

    /** Dimensions fit and every name stands for a node. */
    ghost predicate Shaped() {
      && Square(d, N()) && Square(cbd, N())
      && |pDist| == |aDist| == |bunch| == |cluster| == |optBunch| == |optCluster| == N()
      && Names(bunch, N()) && Names(cluster, N()) && Names(optBunch, N()) && Names(optCluster, N())
      && (forall u: nat, i: nat :: u < N() && i < |pDist[u]| && pDist[u][i].Some? ==> pDist[u][i].value < N())
    }
  }

  ghost predicate Names(m: seq<set<nat>>, n: nat) {
    forall u: nat, b: nat {:trigger b in m[u]} :: u < |m| && b in m[u] ==> b < n
  }

  ghost predicate Square<T>(m: seq<seq<T>>, n: nat) {
    |m| == n && forall u: nat :: u < n ==> |m[u]| == n
  }

  /** Euclidean distances form a pseudo-metric: two nodes may share a position. */
  ghost predicate Metric(d: seq<seq<real>>, n: nat) {
    && Square(d, n)
    && (forall u: nat, v: nat :: u < n && v < n ==> d[u][v] >= 0.0 && d[u][v] == d[v][u])
    && (forall u: nat :: u < n ==> d[u][u] == 0.0)
    && (forall u: nat, v: nat, w: nat :: u < n && v < n && w < n ==> d[u][v] <= d[u][w] + d[w][v])
  }

  lemma Triangle(d: seq<seq<real>>, n: nat, u: nat, v: nat, w: nat)
    requires Metric(d, n) && u < n && v < n && w < n
    ensures d[u][v] <= d[u][w] + d[w][v] && d[u][v] == d[v][u] && d[u][v] >= 0.0 && d[u][u] == 0.0
  {
  }

  /** p is the first of the nodes of level i or more that are nearest to u. */
  ghost predicate IsPivot(level: seq<nat>, row: seq<real>, i: nat, p: Option<nat>, a: Dist)
    requires |row| == |level|
  {
    match p
    case None => a == Inf && forall v: nat :: v < |level| ==> level[v] < i
    case Some(q) =>
      && q < |level| && level[q] >= i && a == Fin(row[q])
      && (forall v: nat :: v < |level| && level[v] >= i ==> row[q] <= row[v])
      && (forall v: nat :: v < q && level[v] >= i ==> row[q] < row[v])
  }

  ghost predicate PivotsBuilt(g: Graph, levels: nat) {
    && g.Shaped()
    && (forall u: nat :: u < g.N() ==> |g.pDist[u]| == |g.aDist[u]| == levels)
    && (forall u: nat, i: nat :: u < g.N() && i < levels ==> IsPivot(g.level, g.d[u], i, g.pDist[u][i], g.aDist[u][i]))
  }

  /** checkDistance */
  ghost predicate Near(dist: real, lvl: nat, levels: nat, aDist: seq<Dist>)
    requires |aDist| == levels
  {
    forall j: nat :: lvl < j < levels ==> Fin(dist).LessEq(aDist[j])
  }

  /** Pass i of the bunch loop puts v2 into the bunch of v1. */
  ghost predicate Admits(level: seq<nat>, row: seq<real>, aDist: seq<Dist>, v1: nat, v2: nat, i: nat)
    requires v1 < |level| && v2 < |level| && |row| == |level|
  {
    v1 != v2 && ((level[v2] >= i && Near(row[v2], i, |aDist|, aDist)) || level[v2] + 1 == |aDist|)
  }

  ghost predicate AdmittedBefore(level: seq<nat>, row: seq<real>, aDist: seq<Dist>, v1: nat, v2: nat, k: int)
    requires v1 < |level| && v2 < |level| && |row| == |level|
  {
    exists i: nat :: i < k && Admits(level, row, aDist, v1, v2, i)
  }

  lemma AdmittedStep(level: seq<nat>, row: seq<real>, aDist: seq<Dist>, v1: nat, v2: nat, k: nat)
    requires v1 < |level| && v2 < |level| && |row| == |level|
    ensures AdmittedBefore(level, row, aDist, v1, v2, k + 1) <==>
            AdmittedBefore(level, row, aDist, v1, v2, k) || Admits(level, row, aDist, v1, v2, k)
    ensures !AdmittedBefore(level, row, aDist, v1, v2, 0)
  {
  }

  ghost function Entry(g: Graph, u: nat, v: nat): Dist
    requires g.Shaped() && u < g.N() && v < g.N()
  {
    if u == v then Fin(0.0) else if v in g.bunch[u] || u in g.bunch[v] then Fin(g.d[u][v]) else Inf
  }

  /** A recorded pair has its metric distance, any other pair none. */
  ghost predicate Recorded(g: Graph) {
    && g.Shaped()
    && forall u: nat, v: nat {:trigger g.cbd[u][v]} :: u < g.N() && v < g.N() ==> g.cbd[u][v] == Entry(g, u, v)
  }

  ghost predicate BunchesBuilt(g: Graph, levels: nat) {
    && PivotsBuilt(g, levels)
    && forall v1: nat, v2: nat :: v1 < g.N() && v2 < g.N() ==>
         (v2 in g.bunch[v1] <==> AdmittedBefore(g.level, g.d[v1], g.aDist[v1], v1, v2, levels - 1))
  }

  /** The state CreateLocalityGraph leaves behind. */
  ghost predicate Built(g: Graph, levels: nat) {
    && g.Shaped() && PivotsBuilt(g, levels) && BunchesBuilt(g, levels) && Recorded(g)
    && g.optBunch == g.bunch && g.optCluster == g.cluster
    && forall v1: nat, v2: nat :: v1 < g.N() && v2 < g.N() ==> (v2 in g.cluster[v1] <==> v1 in g.bunch[v2])
  }

  /** Levels are 0 .. levels - 1 and the top one is used. */
  ghost predicate LevelsOk(g: Graph, levels: nat) {
    && (forall u: nat :: u < g.N() ==> g.level[u] < levels)
    && exists t: nat :: t < g.N() && g.level[t] + 1 == levels
  }

  /** Every level has a pivot, and pivots get farther as the level rises. */
  lemma PivotExists(g: Graph, levels: nat, u: nat, i: nat)
    requires PivotsBuilt(g, levels) && LevelsOk(g, levels) && u < g.N() && i < levels
    ensures g.pDist[u][i].Some? && g.pDist[u][i].value < g.N() && g.level[g.pDist[u][i].value] >= i
    ensures g.aDist[u][i] == Fin(g.d[u][g.pDist[u][i].value])
    ensures forall v: nat :: v < g.N() && g.level[v] >= i ==> g.aDist[u][i].v <= g.d[u][v]
  {
    var t: nat :| t < g.N() && g.level[t] + 1 == levels;
    assert IsPivot(g.level, g.d[u], i, g.pDist[u][i], g.aDist[u][i]);
    assert !(g.level[t] < i);
  }

  /** Which node is the pivot: among those of level i or more the nearest, and of the nearest the first. */
  lemma PivotIff(g: Graph, levels: nat, u: nat, i: nat, p: nat)
    requires PivotsBuilt(g, levels) && u < g.N() && i < levels
    ensures g.pDist[u][i] == Some(p) <==>
            && p < g.N() && g.level[p] >= i
            && forall v: nat :: v < g.N() && g.level[v] >= i ==>
                 g.d[u][p] <= g.d[u][v] && (v < p ==> g.d[u][p] < g.d[u][v])
  {
    assert IsPivot(g.level, g.d[u], i, g.pDist[u][i], g.aDist[u][i]);
  }

  lemma PivotsMonotone(g: Graph, levels: nat, u: nat, i: nat, j: nat)
    requires PivotsBuilt(g, levels) && LevelsOk(g, levels) && u < g.N() && i <= j < levels
    ensures g.aDist[u][i].Fin? && g.aDist[u][j].Fin? && g.aDist[u][i].v <= g.aDist[u][j].v
  {
    PivotExists(g, levels, u, i);
    PivotExists(g, levels, u, j);
  }

  /** A node of level i no farther than the next pivot is in the bunch. */
  lemma NearInBunch(g: Graph, levels: nat, v: nat, w: nat, i: nat)
    requires BunchesBuilt(g, levels) && LevelsOk(g, levels) && v < g.N() && w < g.N() && v != w
    requires levels >= 2 && g.level[w] >= i
    requires i + 1 == levels || (i + 1 < levels && Fin(g.d[v][w]).LessEq(g.aDist[v][i + 1]))
    ensures w in g.bunch[v]
  {
    if i + 1 == levels {
      assert Admits(g.level, g.d[v], g.aDist[v], v, w, 0);
    } else {
      forall j: nat | i < j < levels ensures Fin(g.d[v][w]).LessEq(g.aDist[v][j]) {
        PivotsMonotone(g, levels, v, i + 1, j);
      }
      assert Admits(g.level, g.d[v], g.aDist[v], v, w, i);
    }
    assert AdmittedBefore(g.level, g.d[v], g.aDist[v], v, w, levels - 1);
  }

  /** Who is in a bunch, in terms of levels and distances alone: the nodes of the top level, and those
      no farther than every node of a higher level. */
  lemma BunchIff(g: Graph, levels: nat, v: nat, w: nat)
    requires BunchesBuilt(g, levels) && LevelsOk(g, levels) && levels >= 2 && v < g.N() && w < g.N()
    ensures w in g.bunch[v] <==>
            w != v && (g.level[w] + 1 == levels ||
                       forall x: nat :: x < g.N() && g.level[x] > g.level[w] ==> g.d[v][w] <= g.d[v][x])
  {
    var closer := forall x: nat :: x < g.N() && g.level[x] > g.level[w] ==> g.d[v][w] <= g.d[v][x];
    if w in g.bunch[v] && g.level[w] + 1 != levels {
      AdmittedIsClose(g, levels, v, w);
    }
    if w != v && (g.level[w] + 1 == levels || closer) {
      var i := g.level[w];
      if i + 1 < levels { PivotExists(g, levels, v, i + 1); }
      NearInBunch(g, levels, v, w, i);
    }
  }

  /** Below the top level only nodes are admitted that are no farther than any of a higher level. */
  lemma AdmittedIsClose(g: Graph, levels: nat, v: nat, w: nat)
    requires BunchesBuilt(g, levels) && LevelsOk(g, levels) && v < g.N() && w < g.N()
    requires w in g.bunch[v] && g.level[w] + 1 != levels
    ensures w != v && forall x: nat :: x < g.N() && g.level[x] > g.level[w] ==> g.d[v][w] <= g.d[v][x]
  {
    var i: nat :| i < levels - 1 && Admits(g.level, g.d[v], g.aDist[v], v, w, i);
    forall x: nat | x < g.N() && g.level[x] > g.level[w] ensures g.d[v][w] <= g.d[v][x] {
      PivotExists(g, levels, v, g.level[x]);
      assert Fin(g.d[v][w]).LessEq(g.aDist[v][g.level[x]]);
    }
  }

  lemma PivotInBunch(g: Graph, levels: nat, u: nat, i: nat)
    requires BunchesBuilt(g, levels) && LevelsOk(g, levels) && u < g.N() && i < levels && levels >= 2
    requires g.pDist[u][i] != Some(u)
    ensures g.pDist[u][i].Some? && g.pDist[u][i].value in g.bunch[u]
  {
    PivotExists(g, levels, u, i);
    if i + 1 < levels { PivotsMonotone(g, levels, u, i, i + 1); }
    NearInBunch(g, levels, u, g.pDist[u][i].value, i);
  }

  /** Where the climb of approxDistance stops: w lies in the bunch of v. */
  datatype Meeting = Meeting(u: nat, v: nat, w: nat)

  /** The loop of approxDistance.  None: PDist is indexed past its end. */
  function Climb(g: Graph, u: nat, v: nat, w: nat, i: nat): (r: Option<Meeting>)
    requires g.Shaped() && u < g.N() && v < g.N() && w < g.N()
    ensures r.Some? ==> r.value.u < g.N() && r.value.v < g.N() && r.value.w < g.N() && r.value.w in g.bunch[r.value.v]
    ensures r.Some? ==> (r.value.u == u && r.value.v == v) || (r.value.u == v && r.value.v == u)
    decreases |g.pDist[u]| + |g.pDist[v]| - i
  {
    if w in g.bunch[v] then Some(Meeting(u, v, w))
    else if i + 1 >= |g.pDist[v]| then None
    else Climb(g, v, u, if g.pDist[v][i + 1].Some? then g.pDist[v][i + 1].value else w, i + 1)
  }

  /** approxDistance */
  function Approx(g: Graph, u: nat, v: nat): Option<Dist>
    requires g.Shaped() && u < g.N() && v < g.N()
  {
    match Climb(g, u, v, u, 0)
    case None => None
    case Some(m) => Some(g.cbd[m.w][m.u].Plus(g.cbd[m.w][m.v]))
  }

  /** The climbing node is never the far end: had it been, the test before would have succeeded. */
  lemma NeverTheFarEnd(g: Graph, levels: nat, u: nat, v: nat, w: nat, i: nat)
    requires BunchesBuilt(g, levels) && LevelsOk(g, levels) && Metric(g.d, g.N())
    requires u < g.N() && v < g.N() && w < g.N() && w != v && i + 1 < levels
    requires g.level[w] >= i && g.d[w][u] <= g.aDist[u][i].v && g.aDist[u][i].Fin?
    requires w !in g.bunch[v]
    ensures g.pDist[v][i + 1] != Some(u)
  {
    if g.pDist[v][i + 1] == Some(u) {
      PivotExists(g, levels, v, i + 1);
      PivotExists(g, levels, u, i);
      Triangle(g.d, g.N(), u, u, u);
      Triangle(g.d, g.N(), v, w, u);
      Triangle(g.d, g.N(), u, w, u);
      NearInBunch(g, levels, v, w, i);
    }
  }

  /** One round: missing the bunch of v bounds how far v's next pivot is. */
  lemma NextPivotClose(g: Graph, levels: nat, u: nat, v: nat, w: nat, i: nat)
    requires BunchesBuilt(g, levels) && LevelsOk(g, levels) && Metric(g.d, g.N()) && levels >= 2
    requires u < g.N() && v < g.N() && w < g.N() && w != v && i < levels && g.level[w] >= i
    requires w !in g.bunch[v]
    ensures i + 1 < levels && g.aDist[v][i + 1].Fin? && g.aDist[v][i + 1].v <= g.d[w][u] + g.d[u][v]
  {
    if i + 1 == levels || Fin(g.d[v][w]).LessEq(g.aDist[v][i + 1]) {
      NearInBunch(g, levels, v, w, i);
    }
    PivotExists(g, levels, v, i + 1);
    Triangle(g.d, g.N(), w, v, u);
    Triangle(g.d, g.N(), v, w, u);
  }

  function Times(k: nat, x: real): real {
    k as real * x
  }

  lemma TimesPlus(j: nat, k: nat, x: real)
    ensures Times(j + k, x) == Times(j, x) + Times(k, x)
    ensures Times(0, x) == 0.0 && Times(1, x) == x
  {
  }

  lemma TimesMono(j: nat, k: nat, x: real)
    requires j <= k && x >= 0.0
    ensures Times(j, x) <= Times(k, x)
  {
    TimesPlus(j, k - j, x);
    assert Times(k - j, x) >= 0.0;
  }

  ghost predicate Climbing(g: Graph, levels: nat, u: nat, v: nat, w: nat, i: nat) {
    && u < g.N() && v < g.N() && w < g.N() && u != v && w != v && i < levels
    && PivotsBuilt(g, levels) && g.level[w] >= i
    && (w == u || (i < |g.pDist[u]| && g.pDist[u][i] == Some(w)))
    && g.aDist[u][i].Fin? && g.d[w][u] <= g.aDist[u][i].v
    && g.d[w][u] <= Times(i, g.d[u][v])
  }

  /** The climb stops below the top, at a node recorded for both ends. */
  lemma {:induction false} ClimbMeets(g: Graph, levels: nat, u: nat, v: nat, w: nat, i: nat)
    requires BunchesBuilt(g, levels) && LevelsOk(g, levels) && Metric(g.d, g.N()) && levels >= 2
    requires Climbing(g, levels, u, v, w, i)
    ensures Climb(g, u, v, w, i).Some?
    ensures var m := Climb(g, u, v, w, i).value;
            && (m.w == m.u || m.w in g.bunch[m.u])
            && g.d[m.w][m.u] <= Times(levels - 1, g.d[u][v])
    decreases levels - i
  {
    hide Metric, LevelsOk, IsPivot, AdmittedBefore, Times;
    if w in g.bunch[v] {
      Triangle(g.d, g.N(), u, v, u);
      TimesMono(i, levels - 1, g.d[u][v]);
      if w != u { PivotInBunch(g, levels, u, i); }
    } else {
      NextPivotClose(g, levels, u, v, w, i);
      NeverTheFarEnd(g, levels, u, v, w, i);
      PivotExists(g, levels, v, i + 1);
      var w' := g.pDist[v][i + 1].value;
      Triangle(g.d, g.N(), w', v, v);
      Triangle(g.d, g.N(), u, v, u);
      TimesPlus(i, 1, g.d[u][v]);
      ClimbMeets(g, levels, v, u, w', i + 1);
    }
  }

  lemma StartsClimb(g: Graph, levels: nat, u: nat, v: nat)
    requires PivotsBuilt(g, levels) && LevelsOk(g, levels) && Metric(g.d, g.N())
    requires u < g.N() && v < g.N() && u != v
    ensures Climbing(g, levels, u, v, u, 0)
  {
    PivotExists(g, levels, u, 0);
    Triangle(g.d, g.N(), u, g.pDist[u][0].value, u);
    TimesPlus(0, 1, g.d[u][v]);
  }

  lemma RecordedPair(g: Graph, u: nat, v: nat)
    requires Recorded(g) && Metric(g.d, g.N()) && u < g.N() && v < g.N()
    requires u == v || v in g.bunch[u] || u in g.bunch[v]
    ensures g.cbd[u][v] == Fin(g.d[u][v])
  {
    Triangle(g.d, g.N(), u, v, v);
  }

  /** Oracle stretch: on the unpruned graph every query is answered from recorded distances, with
      a value between the distance and (2 * levels - 1) times the distance. */
  lemma Stretch(g: Graph, levels: nat, u: nat, v: nat)
    requires Built(g, levels) && LevelsOk(g, levels) && Metric(g.d, g.N()) && levels >= 2
    requires u < g.N() && v < g.N() && u != v
    ensures Approx(g, u, v).Some? && Approx(g, u, v).value.Fin?
    ensures g.d[u][v] <= Approx(g, u, v).value.v <= Times(2 * levels - 1, g.d[u][v])
  {
    hide Times, Metric, LevelsOk, BunchesBuilt, Recorded;
    StartsClimb(g, levels, u, v);
    ClimbMeets(g, levels, u, v, u, 0);
    var m := Climb(g, u, v, u, 0).value;
    Triangle(g.d, g.N(), m.u, m.v, m.w);
    Triangle(g.d, g.N(), m.w, m.v, m.u);
    Triangle(g.d, g.N(), m.w, m.u, m.v);
    TimesPlus(levels - 1, levels - 1, g.d[u][v]);
    TimesPlus(2 * levels - 2, 1, g.d[u][v]);
    RecordedPair(g, m.w, m.u);
    RecordedPair(g, m.w, m.v);
  }

  /** The loop bound levels - 1 of the bunch pass leaves a one-level graph without bunches, so the
      oracle answers exactly when there are at least two levels. */
  lemma AnswersIffTwoLevels(g: Graph, levels: nat, u: nat, v: nat)
    requires Built(g, levels) && LevelsOk(g, levels) && Metric(g.d, g.N())
    requires u < g.N() && v < g.N() && u != v
    ensures Approx(g, u, v).Some? <==> levels >= 2
  {
    if levels >= 2 {
      Stretch(g, levels, u, v);
    } else {
      assert !AdmittedBefore(g.level, g.d[v], g.aDist[v], v, u, 0);
    }
  }

  // ---------------------------------------------------------------- which answer is given

  /** The end whose pivot is tried in round i; the ends take turns. */
  ghost function Own(u: nat, v: nat, i: nat): nat {
    if i % 2 == 0 then u else v
  }

  /** The node a query looks for in round i: u itself, then the level-i pivot of v for odd i and of u
      for even i. */
  ghost function Candidate(g: Graph, u: nat, v: nat, i: nat): Option<nat>
    requires g.Shaped() && u < g.N() && v < g.N()
  {
    if i == 0 then Some(u) else if i < |g.pDist[Own(u, v, i)]| then g.pDist[Own(u, v, i)][i] else None
  }

  /** It is found in the bunch of the other end. */
  ghost predicate Hits(g: Graph, u: nat, v: nat, i: nat)
    requires g.Shaped() && u < g.N() && v < g.N()
  {
    Candidate(g, u, v, i).Some? && Candidate(g, u, v, i).value in g.bunch[Own(v, u, i)]
  }

  /** A round that does not find its candidate goes on to the next. */
  lemma ClimbStep(g: Graph, levels: nat, u: nat, v: nat, i: nat)
    requires PivotsBuilt(g, levels) && LevelsOk(g, levels) && u < g.N() && v < g.N() && i + 1 < levels
    requires Candidate(g, u, v, i).Some? && Candidate(g, u, v, i).value < g.N() && !Hits(g, u, v, i)
    ensures Candidate(g, u, v, i + 1).Some? && Candidate(g, u, v, i + 1).value < g.N()
    ensures Climb(g, Own(u, v, i), Own(v, u, i), Candidate(g, u, v, i).value, i)
            == Climb(g, Own(u, v, i + 1), Own(v, u, i + 1), Candidate(g, u, v, i + 1).value, i + 1)
  {
    assert Own(u, v, i + 1) == Own(v, u, i) && Own(v, u, i + 1) == Own(u, v, i);
    PivotExists(g, levels, Own(u, v, i + 1), i + 1);
  }

  lemma ClimbEnds(g: Graph, u: nat, v: nat, k: nat)
    requires g.Shaped() && u < g.N() && v < g.N() && Hits(g, u, v, k) && Candidate(g, u, v, k).value < g.N()
    ensures Climb(g, Own(u, v, k), Own(v, u, k), Candidate(g, u, v, k).value, k)
            == Some(Meeting(Own(u, v, k), Own(v, u, k), Candidate(g, u, v, k).value))
  {
  }

  lemma ClimbFails(g: Graph, u: nat, v: nat, k: nat)
    requires g.Shaped() && u < g.N() && v < g.N() && !Hits(g, u, v, k) && k + 1 >= |g.pDist[Own(v, u, k)]|
    requires Candidate(g, u, v, k).Some? && Candidate(g, u, v, k).value < g.N()
    ensures Climb(g, Own(u, v, k), Own(v, u, k), Candidate(g, u, v, k).value, k) == None
  {
  }

  /** The climb passes over the rounds in which the candidate is not found. */
  lemma {:induction false} ClimbSkips(g: Graph, levels: nat, u: nat, v: nat, i: nat, k: nat)
    requires PivotsBuilt(g, levels) && LevelsOk(g, levels) && u < g.N() && v < g.N() && i <= k < levels
    requires Candidate(g, u, v, i).Some? && Candidate(g, u, v, i).value < g.N()
    requires Hits(g, u, v, k) && forall j :: i <= j < k ==> !Hits(g, u, v, j)
    ensures Candidate(g, u, v, k).value < g.N()
    ensures Climb(g, Own(u, v, i), Own(v, u, i), Candidate(g, u, v, i).value, i)
            == Some(Meeting(Own(u, v, k), Own(v, u, k), Candidate(g, u, v, k).value))
    decreases k - i
  {
    hide Climb, LevelsOk, IsPivot;
    if i == k {
      ClimbEnds(g, u, v, k);
    } else {
      ClimbStep(g, levels, u, v, i);
      ClimbSkips(g, levels, u, v, i + 1, k);
    }
  }

  /** The answer: over the candidate of the first round that finds one, and its two true distances. */
  lemma AnswerIs(g: Graph, levels: nat, u: nat, v: nat, k: nat, w: nat)
    requires Built(g, levels) && LevelsOk(g, levels) && Metric(g.d, g.N()) && levels >= 2
    requires u < g.N() && v < g.N() && k < levels
    requires Candidate(g, u, v, k) == Some(w) && FirstHit(g, u, v, k)
    ensures w < g.N() && Approx(g, u, v) == Some(Fin(g.d[w][u] + g.d[w][v]))
  {
    hide BunchesBuilt, Metric, LevelsOk, Recorded;
    ClimbSkips(g, levels, u, v, 0, k);
    if w != Own(u, v, k) { PivotInBunch(g, levels, Own(u, v, k), k); }
    RecordedPair(g, w, u);
    RecordedPair(g, w, v);
  }

  /** k is the first round that finds its candidate. */
  ghost predicate FirstHit(g: Graph, u: nat, v: nat, k: nat)
    requires g.Shaped() && u < g.N() && v < g.N()
  {
    Hits(g, u, v, k) && forall j :: 0 <= j < k ==> !Hits(g, u, v, j)
  }

  lemma {:induction false} FirstExists(g: Graph, u: nat, v: nat, k: nat)
    requires g.Shaped() && u < g.N() && v < g.N() && Hits(g, u, v, k)
    ensures exists i: nat :: i <= k && FirstHit(g, u, v, i)
  {
    if !FirstHit(g, u, v, k) {
      var j :| 0 <= j < k && Hits(g, u, v, j);
      FirstExists(g, u, v, j);
    }
  }

  lemma {:induction false} NoRoundNoAnswer(g: Graph, levels: nat, u: nat, v: nat, i: nat)
    requires PivotsBuilt(g, levels) && LevelsOk(g, levels) && u < g.N() && v < g.N() && i < levels
    requires Candidate(g, u, v, i).Some? && Candidate(g, u, v, i).value < g.N()
    requires forall j :: i <= j < levels ==> !Hits(g, u, v, j)
    ensures Climb(g, Own(u, v, i), Own(v, u, i), Candidate(g, u, v, i).value, i) == None
    decreases levels - i
  {
    hide Climb, LevelsOk, IsPivot;
    if i + 1 == levels {
      ClimbFails(g, u, v, i);
    } else {
      ClimbStep(g, levels, u, v, i);
      NoRoundNoAnswer(g, levels, u, v, i + 1);
    }
  }

  /** Every query is answered so: some first round below the top finds its candidate, and the answer is
      the sum of the candidate's distances to the two ends. */
  lemma AnswerExists(g: Graph, levels: nat, u: nat, v: nat)
    requires Built(g, levels) && LevelsOk(g, levels) && Metric(g.d, g.N()) && levels >= 2
    requires u < g.N() && v < g.N() && u != v
    ensures exists k: nat, w: nat :: k < levels && w < g.N() && FirstHit(g, u, v, k) &&
              Candidate(g, u, v, k) == Some(w) && Approx(g, u, v) == Some(Fin(g.d[w][u] + g.d[w][v]))
  {
    hide BunchesBuilt, Metric, LevelsOk, Recorded;
    StartsClimb(g, levels, u, v);
    ClimbMeets(g, levels, u, v, u, 0);
    if forall j :: 0 <= j < levels ==> !Hits(g, u, v, j) {
      NoRoundNoAnswer(g, levels, u, v, 0);
    }
    var j: nat :| j < levels && Hits(g, u, v, j);
    FirstExists(g, u, v, j);
    var k: nat :| k <= j && FirstHit(g, u, v, k);
    var w := Candidate(g, u, v, k).value;
    AnswerIs(g, levels, u, v, k, w);
  }

  /** The answer to a query whose first end is in the bunch of the second is the distance itself. */
  lemma AnsweredAtOnce(g: Graph, levels: nat, u: nat, v: nat)
    requires Built(g, levels) && Metric(g.d, g.N()) && u < g.N() && v < g.N() && u in g.bunch[v]
    ensures Approx(g, u, v) == Some(Fin(g.d[u][v]))
  {
    Triangle(g.d, g.N(), u, v, u);
    RecordedPair(g, u, v);
    RecordedPair(g, u, u);
  }

  /** Otherwise the level-1 pivot of the second end is tried, in the bunch of the first. */
  lemma AnsweredOneUp(g: Graph, levels: nat, u: nat, v: nat, p: nat)
    requires Built(g, levels) && LevelsOk(g, levels) && Metric(g.d, g.N()) && levels >= 2
    requires u < g.N() && v < g.N() && u !in g.bunch[v] && g.pDist[v][1] == Some(p) && p in g.bunch[u]
    ensures p < g.N() && Approx(g, u, v) == Some(Fin(g.d[p][u] + g.d[p][v]))
  {
    assert Candidate(g, u, v, 1) == Some(p) && FirstHit(g, u, v, 1);
    AnswerIs(g, levels, u, v, 1, p);
  }
}
