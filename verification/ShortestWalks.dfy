/**
 Shortest walks over the finite entries of a distance matrix, and the facts behind the
 Dijkstra loop of UpdateDistance.
 */
module ShortestWalks {
  import opened Locality

  /** What the callers hand to UpdateDistance: symmetric, no negative entry, zero diagonal. */
  ghost predicate Distances(m: seq<seq<Dist>>, n: nat) {
    && Square(m, n)
    && (forall u: nat, v: nat {:trigger m[u][v]} :: u < n && v < n ==> m[u][v] == m[v][u])
    && (forall u: nat, v: nat {:trigger m[u][v]} :: u < n && v < n ==> (m[u][v].Fin? ==> m[u][v].v >= 0.0))
    && (forall u: nat {:trigger m[u][u]} :: u < n ==> m[u][u] == Fin(0.0))
  }

  ghost predicate WalkTo(p: seq<nat>, n: nat, s: nat, x: nat) {
    |p| > 0 && p[0] == s && p[|p| - 1] == x && forall i :: 0 <= i < |p| ==> p[i] < n
  }

  /** The length of a walk; Inf when it uses a missing link. */
  ghost function Length(m: seq<seq<Dist>>, n: nat, p: seq<nat>): Dist
    requires Square(m, n) && |p| > 0 && forall i :: 0 <= i < |p| ==> p[i] < n
  {
    if |p| == 1 then Fin(0.0)
    else Length(m, n, p[..|p| - 1]).Plus(m[p[|p| - 2]][p[|p| - 1]])
  }

  ghost predicate Achieved(m: seq<seq<Dist>>, n: nat, s: nat, x: nat, r: Dist)
    requires Square(m, n)
  {
    r.Fin? ==> exists p :: WalkTo(p, n, s, x) && Length(m, n, p) == r
  }

  ghost predicate AtMostAllWalks(m: seq<seq<Dist>>, n: nat, s: nat, x: nat, r: Dist)
    requires Square(m, n)
  {
    forall p :: WalkTo(p, n, s, x) ==> r.LessEq(Length(m, n, p))
  }

  /** r is the length of a shortest walk from s to x; Inf exactly when there is no walk of finite length. */
  ghost predicate Shortest(m: seq<seq<Dist>>, n: nat, s: nat, x: nat, r: Dist)
    requires Square(m, n)
  {
    Achieved(m, n, s, x, r) && AtMostAllWalks(m, n, s, x, r)
  }

  ghost predicate Reachable(m: seq<seq<Dist>>, n: nat, s: nat, x: nat)
    requires Square(m, n)
  {
    exists p :: WalkTo(p, n, s, x) && Length(m, n, p).Fin?
  }

  /** row is a tentative distance row for s over m, exact for the visited nodes; every visited
      node but crt has been relaxed. */
  ghost predicate Tentative(m: seq<seq<Dist>>, n: nat, s: nat, row: seq<Dist>, visited: set<nat>, pending: set<nat>) {
    && Distances(m, n) && s < n && |row| == n
    && row[s] == Fin(0.0)
    && (forall x: nat :: x < n ==> Achieved(m, n, s, x, row[x]))
    && (forall x: nat :: x < n ==> row[x].LessEq(m[s][x]))
    && (forall x: nat :: x in visited ==> x < n && row[x].Fin? && AtMostAllWalks(m, n, s, x, row[x]))
    && (forall z: nat, y: nat :: z in visited && z !in pending && y < n ==> Relaxed(m, n, row, z, y))
  }

  ghost predicate Relaxed(m: seq<seq<Dist>>, n: nat, row: seq<Dist>, z: nat, y: nat) {
    Square(m, n) && |row| == n && z < n && y < n && row[y].LessEq(row[z].Plus(m[z][y]))
  }

  lemma StartsTentative(m: seq<seq<Dist>>, n: nat, s: nat)
    requires Distances(m, n) && s < n
    ensures Tentative(m, n, s, m[s], {}, {s}) && Patched(m, n, s, m[s], m) && m[s][s].Fin?
    ensures forall x: nat :: x < n ==> Achieved(m, n, s, x, m[s][x])
  {
    forall x: nat | x < n ensures Achieved(m, n, s, x, m[s][x]) {
      if m[s][x].Fin? {
        var p := [s, x];
        assert p[..1] == [s];
        assert WalkTo(p, n, s, x) && Length(m, n, p) == m[s][x];
      }
    }
  }

  /** A walk to a visited node prolonged by one link. */
  lemma Prolong(m: seq<seq<Dist>>, n: nat, s: nat, z: nat, y: nat, r: Dist)
    requires Square(m, n) && s < n && z < n && y < n && Achieved(m, n, s, z, r) && r.Fin?
    ensures Achieved(m, n, s, y, r.Plus(m[z][y]))
  {
    var p :| WalkTo(p, n, s, z) && Length(m, n, p) == r;
    var q := p + [y];
    assert q[..|q| - 1] == p;
    assert WalkTo(q, n, s, y) && Length(m, n, q) == r.Plus(m[z][y]);
  }

  /** Along any walk the tentative row keeps up, or some unvisited node lies in front. */
  lemma {:induction false} Frontier(m: seq<seq<Dist>>, n: nat, s: nat, row: seq<Dist>, visited: set<nat>, p: seq<nat>,
                                    x: nat)
    requires Tentative(m, n, s, row, visited, {}) && WalkTo(p, n, s, x) && Length(m, n, p).Fin?
    ensures row[x].LessEq(Length(m, n, p)) || exists y: nat :: y < n && y !in visited && row[y].LessEq(Length(m, n, p))
    decreases |p|
  {
    if |p| > 1 {
      var q, z := p[..|p| - 1], p[|p| - 2];
      Frontier(m, n, s, row, visited, q, z);
      assert m[z][x].Fin? && m[z][x].v >= 0.0;
      if row[z].LessEq(Length(m, n, q)) {
        if z in visited {
          assert Relaxed(m, n, row, z, x);
        } else {
          assert row[z].LessEq(Length(m, n, p));
        }
      } else {
        var y: nat :| y < n && y !in visited && row[y].LessEq(Length(m, n, q));
        assert row[y].LessEq(Length(m, n, p));
      }
    }
  }

  /** The nearest unvisited node is exact. */
  lemma Settle(m: seq<seq<Dist>>, n: nat, s: nat, row: seq<Dist>, visited: set<nat>, x: nat)
    requires Tentative(m, n, s, row, visited, {}) && x < n && x !in visited && row[x].Fin?
    requires forall y: nat :: y < n && y !in visited ==> row[x].LessEq(row[y])
    ensures Tentative(m, n, s, row, visited + {x}, {x})
  {
    forall p | WalkTo(p, n, s, x) ensures row[x].LessEq(Length(m, n, p)) {
      if Length(m, n, p).Fin? {
        Frontier(m, n, s, row, visited, p, x);
      }
    }
  }

  /** If no unvisited node has a finite entry, the unvisited nodes are unreachable. */
  lemma Stuck(m: seq<seq<Dist>>, n: nat, s: nat, row: seq<Dist>, visited: set<nat>, x: nat)
    requires Tentative(m, n, s, row, visited, {}) && x < n && x !in visited
    requires forall y: nat :: y < n && y !in visited ==> row[y].Inf?
    ensures !Reachable(m, n, s, x)
  {
    if Reachable(m, n, s, x) {
      var p :| WalkTo(p, n, s, x) && Length(m, n, p).Fin?;
      Frontier(m, n, s, row, visited, p, x);
    }
  }

  /** A shortest distance is finite exactly for what can be reached. */
  lemma ShortestFinite(m: seq<seq<Dist>>, n: nat, s: nat, x: nat, r: Dist)
    requires Square(m, n) && Shortest(m, n, s, x, r)
    ensures r.Fin? <==> Reachable(m, n, s, x)
  {
  }

  function Relax(row: seq<Dist>, crt: Dist, link: Dist, y: nat): seq<Dist>
    requires y < |row|
  {
    if crt.Plus(link).Less(row[y]) then row[y := crt.Plus(link)] else row
  }

  /** Relaxing the link from the settled node c to y. */
  lemma RelaxKeeps(m: seq<seq<Dist>>, n: nat, s: nat, row: seq<Dist>, visited: set<nat>, c: nat, y: nat)
    requires Tentative(m, n, s, row, visited, {c}) && c < n && y < n && row[c].Fin?
    ensures Tentative(m, n, s, Relax(row, row[c], m[c][y], y), visited, {c})
    ensures Square(m, n) && |row| == n && Relax(row, row[c], m[c][y], y)[c] == row[c]
    ensures Relaxed(m, n, Relax(row, row[c], m[c][y], y), c, y)
  {
    var row' := Relax(row, row[c], m[c][y], y);
    if row' != row {
      Prolong(m, n, s, c, y, row[c]);
      Nonnegative(m, n, s, c, row[c]);
      assert m[c][c] == Fin(0.0) && m[c][y].v >= 0.0;
      assert y != c;
      forall z: nat, x: nat | z in visited && z != c && x < n ensures Relaxed(m, n, row', z, x) {
        assert Relaxed(m, n, row, z, x);
      }
    }
  }

  lemma Nonnegative(m: seq<seq<Dist>>, n: nat, s: nat, x: nat, r: Dist)
    requires Distances(m, n) && s < n && x < n && Achieved(m, n, s, x, r) && r.Fin?
    ensures r.v >= 0.0
  {
    var p :| WalkTo(p, n, s, x) && Length(m, n, p) == r;
    LengthNonnegative(m, n, p);
  }

  lemma {:induction false} LengthNonnegative(m: seq<seq<Dist>>, n: nat, p: seq<nat>)
    requires Distances(m, n) && |p| > 0 && forall i :: 0 <= i < |p| ==> p[i] < n
    ensures Length(m, n, p).Fin? ==> Length(m, n, p).v >= 0.0
    decreases |p|
  {
    if |p| > 1 {
      LengthNonnegative(m, n, p[..|p| - 1]);
      assert m[p[|p| - 2]][p[|p| - 1]].Fin? ==> m[p[|p| - 2]][p[|p| - 1]].v >= 0.0;
    }
  }

  /** No entry is below the metric distance. */
  ghost predicate NeverUnder(m: seq<seq<Dist>>, d: seq<seq<real>>, n: nat) {
    Square(m, n) && Square(d, n) &&
    forall u: nat, v: nat {:trigger m[u][v]} :: u < n && v < n ==> (m[u][v].Fin? ==> d[u][v] <= m[u][v].v)
  }

  lemma {:induction false} WalkNotShorter(m: seq<seq<Dist>>, d: seq<seq<real>>, n: nat, p: seq<nat>, s: nat, x: nat)
    requires Metric(d, n) && NeverUnder(m, d, n) && WalkTo(p, n, s, x)
    ensures Length(m, n, p).Fin? ==> d[s][x] <= Length(m, n, p).v
    decreases |p|
  {
    if |p| == 1 {
      Triangle(d, n, s, s, s);
    } else if Length(m, n, p).Fin? {
      var z := p[|p| - 2];
      WalkNotShorter(m, d, n, p[..|p| - 1], s, z);
      Triangle(d, n, s, x, z);
      assert m[z][x].Fin?;
    }
  }

  /** m with row and column s replaced by row. */
  ghost predicate Patched(m: seq<seq<Dist>>, n: nat, s: nat, row: seq<Dist>, m': seq<seq<Dist>>) {
    && Square(m, n) && Square(m', n) && s < n && |row| == n && m'[s] == row
    && forall u: nat, v: nat {:trigger m'[u][v]} :: u < n && v < n && u != s ==>
        m'[u][v] == if v == s then row[u] else m[u][v]
  }

  /** What relaxing reads for the link from c to y: the entry of the patched matrix. */
  ghost function Link(m: seq<seq<Dist>>, n: nat, s: nat, row: seq<Dist>, c: nat, y: nat): Dist
    requires Square(m, n) && |row| == n && c < n && y < n
  {
    if c == s then row[y] else if y == s then row[c] else m[c][y]
  }

  ghost predicate RelaxedUpTo(m: seq<seq<Dist>>, n: nat, row: seq<Dist>, c: nat, k: nat) {
    forall y: nat :: y < k && y < n ==> Relaxed(m, n, row, c, y)
  }

  /** One iteration of the relaxing loop. */
  lemma RelaxOnce(m: seq<seq<Dist>>, n: nat, s: nat, row: seq<Dist>, visited: set<nat>, c: nat, y: nat)
    requires Tentative(m, n, s, row, visited, {c}) && c < n && y < n && row[c].Fin?
    requires RelaxedUpTo(m, n, row, c, y)
    ensures var row' := Relax(row, row[c], Link(m, n, s, row, c, y), y);
            Tentative(m, n, s, row', visited, {c}) && row'[c] == row[c] && RelaxedUpTo(m, n, row', c, y + 1)
  {
    hide Tentative, RelaxedUpTo;
    if c == s || y == s {
      RelaxNothing(m, n, s, row, visited, c, y);
      RelaxedNext(m, n, row, c, y);
    } else {
      RelaxKeeps(m, n, s, row, visited, c, y);
      RelaxedStays(m, n, row, c, y);
      RelaxedNext(m, n, Relax(row, row[c], m[c][y], y), c, y);
    }
  }

  /** Links of the start itself are relaxed already: the row is the start's, and never negative. */
  lemma RelaxNothing(m: seq<seq<Dist>>, n: nat, s: nat, row: seq<Dist>, visited: set<nat>, c: nat, y: nat)
    requires Tentative(m, n, s, row, visited, {c}) && c < n && y < n && row[c].Fin? && (c == s || y == s)
    ensures Relax(row, row[c], Link(m, n, s, row, c, y), y) == row && Relaxed(m, n, row, c, y)
  {
    Nonnegative(m, n, s, c, row[c]);
    assert row[s] == Fin(0.0) && row[y].LessEq(m[s][y]);
    assert m[c][y].Fin? ==> m[c][y].v >= 0.0;
    hide Tentative, Achieved;
  }

  lemma RelaxedNext(m: seq<seq<Dist>>, n: nat, row: seq<Dist>, c: nat, y: nat)
    requires RelaxedUpTo(m, n, row, c, y) && Relaxed(m, n, row, c, y)
    ensures RelaxedUpTo(m, n, row, c, y + 1)
  {
  }

  /** Relaxing y leaves the nodes before it relaxed. */
  lemma RelaxedStays(m: seq<seq<Dist>>, n: nat, row: seq<Dist>, c: nat, y: nat)
    requires RelaxedUpTo(m, n, row, c, y) && |row| == n && Square(m, n) && c < n && y < n
    requires Relax(row, row[c], m[c][y], y)[c] == row[c]
    ensures RelaxedUpTo(m, n, Relax(row, row[c], m[c][y], y), c, y)
  {
    var row' := Relax(row, row[c], m[c][y], y);
    forall x: nat | x < y && x < n ensures Relaxed(m, n, row', c, x) {
      assert Relaxed(m, n, row, c, x);
    }
  }

  lemma AllRelaxed(m: seq<seq<Dist>>, n: nat, s: nat, row: seq<Dist>, visited: set<nat>, c: nat)
    requires Tentative(m, n, s, row, visited, {c}) && RelaxedUpTo(m, n, row, c, n)
    ensures Tentative(m, n, s, row, visited, {})
  {
  }

  lemma PatchedDistances(m: seq<seq<Dist>>, n: nat, s: nat, row: seq<Dist>, m': seq<seq<Dist>>, visited: set<nat>,
                         pending: set<nat>)
    requires Tentative(m, n, s, row, visited, pending) && Patched(m, n, s, row, m')
    ensures Distances(m', n)
  {
    forall u: nat, v: nat | u < n && v < n ensures m'[u][v] == m'[v][u] && (m'[u][v].Fin? ==> m'[u][v].v >= 0.0) {
      var x := if u == s then v else u;
      if row[x].Fin? { Nonnegative(m, n, s, x, row[x]); }
      assert m[u][v] == m[v][u];
    }
  }

  /** Row and column s have changed, to lengths of walks over the old matrix. */
  ghost predicate Updated(m: seq<seq<Dist>>, n: nat, s: nat, m': seq<seq<Dist>>) {
    && Distances(m', n) && s < n && Patched(m, n, s, m'[s], m')
    && forall x: nat :: x < n ==> Achieved(m, n, s, x, m'[s][x]) && m'[s][x].LessEq(m[s][x])
  }

  lemma SearchUpdates(m: seq<seq<Dist>>, n: nat, s: nat, m': seq<seq<Dist>>, visited: set<nat>, pending: set<nat>)
    requires Square(m', n) && s < n && Tentative(m, n, s, m'[s], visited, pending) && Patched(m, n, s, m'[s], m')
    ensures Updated(m, n, s, m')
    ensures forall x: nat :: x in visited ==> x < n && Shortest(m, n, s, x, m'[s][x]) && Reachable(m, n, s, x)
  {
    PatchedDistances(m, n, s, m'[s], m', visited, pending);
  }

  lemma PatchedNeverUnder(m: seq<seq<Dist>>, d: seq<seq<real>>, n: nat, s: nat, row: seq<Dist>, m': seq<seq<Dist>>)
    requires Metric(d, n) && NeverUnder(m, d, n) && Patched(m, n, s, row, m')
    requires forall x: nat :: x < n ==> Achieved(m, n, s, x, row[x])
    ensures NeverUnder(m', d, n)
  {
    forall u: nat, v: nat | u < n && v < n ensures m'[u][v].Fin? ==> d[u][v] <= m'[u][v].v {
      Triangle(d, n, u, v, u);
      var x := if u == s then v else u;
      if row[x].Fin? {
        var p :| WalkTo(p, n, s, x) && Length(m, n, p) == row[x];
        WalkNotShorter(m, d, n, p, s, x);
      }
      assert m[u][v].Fin? ==> d[u][v] <= m[u][v].v;
    }
  }
}
