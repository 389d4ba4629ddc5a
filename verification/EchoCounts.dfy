/**
 How many messages the echo phase takes, and that it cannot stop short.
 */
module EchoCounts {
  import opened Sets
  import opened Locality
  import opened Group
  import opened Echo
  import opened EchoTheorems

  ghost function Degrees(cfg: Config): seq<nat> {
    seq(cfg.N(), v requires 0 <= v < cfg.N() => |cfg.adj[v]|)
  }

  /** Announcements sent by each node so far. */
  ghost function SentBy(cfg: Config, s: State): seq<nat>
    requires |s.nodes| == cfg.N()
  {
    seq(cfg.N(), v requires 0 <= v < cfg.N() =>
        if s.nodes[v].received && cfg.Expected(v) >= 0 then cfg.Expected(v) else 0)
  }

  ghost function JoinedOnes(s: State): seq<nat> {
    seq(|s.nodes|, v requires 0 <= v < |s.nodes| => if s.nodes[v].received then 1 else 0)
  }

  /** One for each node that has reported to a parent. */
  ghost function ReportedOnes(s: State): seq<nat> {
    seq(|s.nodes|, v requires 0 <= v < |s.nodes| => if s.nodes[v].Finished() && s.nodes[v].parent.Some? then 1 else 0)
  }

  ghost function Heard(s: State): seq<nat> {
    seq(|s.nodes|, v requires 0 <= v < |s.nodes| => s.nodes[v].nrPrepareCommit)
  }

  /** The message balance: announcements sent are in flight, adopted or refused. */
  ghost predicate Balance(cfg: Config, s: State) {
    && |s.nodes| == cfg.N()
    && s.sentAnnounces == Total(SentBy(cfg, s))
    && s.sentAnnounces + 1 == |s.announces| + Total(JoinedOnes(s)) + s.sentBreaks
    && s.sentCommits == Total(ReportedOnes(s))
  }

  lemma StartBalance(cfg: Config)
    requires cfg.Ok()
    ensures Balance(cfg, Start(cfg)) && Total(JoinedOnes(Start(cfg))) == 1 && Total(Heard(Start(cfg))) == 0
  {
    var s, n := Start(cfg), cfg.N();
    var zeros: seq<nat> := seq(n, _ => 0);
    TotalConst(zeros, 0);
    TotalUpdate(zeros, cfg.root, 1);
    TotalUpdate(zeros, cfg.root, |cfg.adj[cfg.root]|);
    assert JoinedOnes(s) == zeros[cfg.root := 1];
    assert SentBy(cfg, s) == zeros[cfg.root := |cfg.adj[cfg.root]|];
    assert ReportedOnes(s) == zeros;
    assert Heard(s) == zeros;
    PairsCard(cfg.root, Targets(cfg, cfg.root, None));
  }

  /** Deliveries so far, plus one. */
  ghost function Work(s: State): nat {
    Total(JoinedOnes(s)) + s.sentBreaks + Total(Heard(s))
  }

  lemma BreakBalance(cfg: Config, s: State, v: nat, w: nat)
    requires Inv(cfg, s) && Balance(cfg, s) && v < cfg.N() && w < cfg.N() && (v, w) in s.announces
    requires s.nodes[w].received
    ensures Balance(cfg, OnAnnounce(cfg, s, v, w)) && Work(OnAnnounce(cfg, s, v, w)) == Work(s) + 1
  {
    var s' := OnAnnounce(cfg, s, v, w);
    hide Inv;
    assert SentBy(cfg, s') == SentBy(cfg, s) && JoinedOnes(s') == JoinedOnes(s) && ReportedOnes(s') == ReportedOnes(s)
        && Heard(s') == Heard(s);
  }

  lemma JoinTotals(cfg: Config, s: State, s': State, v: nat, w: nat)
    requires |s.nodes| == cfg.N() && w < cfg.N() && w != cfg.root && s.nodes[w] == Silent()
    requires s'.nodes == s.nodes[w := Joins(cfg, w, Silent(), Some(v))] && cfg.Expected(w) >= 0
    ensures Total(SentBy(cfg, s')) == Total(SentBy(cfg, s)) + cfg.Expected(w)
    ensures Total(JoinedOnes(s')) == Total(JoinedOnes(s)) + 1
    ensures Total(ReportedOnes(s')) == Total(ReportedOnes(s)) + |Report(s'.nodes[w], w)|
    ensures Total(Heard(s')) == Total(Heard(s))
  {
    hide Total;
    var r := |Report(s'.nodes[w], w)|;
    TotalUpdate(SentBy(cfg, s), w, cfg.Expected(w));
    TotalUpdate(JoinedOnes(s), w, 1);
    TotalUpdate(ReportedOnes(s), w, r);
    assert SentBy(cfg, s') == SentBy(cfg, s)[w := cfg.Expected(w)];
    assert JoinedOnes(s') == JoinedOnes(s)[w := 1];
    assert ReportedOnes(s') == ReportedOnes(s)[w := r];
    assert Heard(s') == Heard(s);
  }

  lemma JoinBalance(cfg: Config, s: State, v: nat, w: nat)
    requires Inv(cfg, s) && Balance(cfg, s) && v < cfg.N() && w < cfg.N() && (v, w) in s.announces
    requires !s.nodes[w].received
    ensures Balance(cfg, OnAnnounce(cfg, s, v, w)) && Work(OnAnnounce(cfg, s, v, w)) == Work(s) + 1
  {
    hide Inv, Total, SentBy, JoinedOnes, ReportedOnes, Heard, Targets, Joins, Report;
    JoinFacts(cfg, s, v, w);
    PairsCard(w, Targets(cfg, w, Some(v)));
    JoinTotals(cfg, s, OnAnnounce(cfg, s, v, w), v, w);
  }

  lemma AnswerTotals(cfg: Config, s: State, s': State, v: nat)
    requires |s.nodes| == |s'.nodes| == cfg.N() && v < cfg.N() && s'.nodes == s.nodes[v := s'.nodes[v]]
    requires s'.nodes[v].received == s.nodes[v].received && s'.nodes[v].parent == s.nodes[v].parent
    requires s'.nodes[v].nrPrepareCommit == s.nodes[v].nrPrepareCommit + 1 && !s.nodes[v].Finished()
    ensures Total(SentBy(cfg, s')) == Total(SentBy(cfg, s)) && Total(JoinedOnes(s')) == Total(JoinedOnes(s))
    ensures Total(ReportedOnes(s')) == Total(ReportedOnes(s)) + |Report(s'.nodes[v], v)|
    ensures Total(Heard(s')) == Total(Heard(s)) + 1
  {
    hide Total;
    var r := |Report(s'.nodes[v], v)|;
    TotalUpdate(ReportedOnes(s), v, r);
    TotalUpdate(Heard(s), v, s.nodes[v].nrPrepareCommit + 1);
    assert SentBy(cfg, s') == SentBy(cfg, s);
    assert JoinedOnes(s') == JoinedOnes(s);
    assert ReportedOnes(s') == ReportedOnes(s)[v := r];
    assert Heard(s') == Heard(s)[v := s.nodes[v].nrPrepareCommit + 1];
  }

  lemma AnswerBalance(cfg: Config, s: State, w: nat, v: nat, com: Option<Point>)
    requires Inv(cfg, s) && Balance(cfg, s) && v < cfg.N() && w < cfg.N() && AnswerComing(s, w, v, com)
    ensures Balance(cfg, OnAnswer(cfg, s, w, v, com)) && Work(OnAnswer(cfg, s, w, v, com)) == Work(s) + 1
  {
    hide Inv, Total, AnswerComing, Sent, Adopted, AnsweredTo, SentBy, JoinedOnes, ReportedOnes, Heard, Report;
    AnswerFacts(cfg, s, w, v, com);
    AnswerTotals(cfg, s, OnAnswer(cfg, s, w, v, com), v);
  }

  lemma NextBalance(cfg: Config, s: State, s': State)
    requires Inv(cfg, s) && Balance(cfg, s) && Next(cfg, s, s')
    ensures Balance(cfg, s') && Work(s') == Work(s) + 1
  {
    hide Inv, Balance, Work, OnAnnounce, OnAnswer;
    if v: nat, w: nat :| v < cfg.N() && w < cfg.N() && (v, w) in s.announces && s' == OnAnnounce(cfg, s, v, w) {
      if s.nodes[w].received { BreakBalance(cfg, s, v, w); } else { JoinBalance(cfg, s, v, w); }
    } else if v: nat, w: nat :| v < cfg.N() && w < cfg.N() && (w, v) in s.breaks && s' == OnAnswer(cfg, s, w, v, None) {
      AnswerBalance(cfg, s, w, v, None);
    } else {
      var v: nat, w: nat, g: Point :| v < cfg.N() && w < cfg.N() && (w, v, g) in s.commits
          && s' == OnAnswer(cfg, s, w, v, Some(g));
      AnswerBalance(cfg, s, w, v, Some(g));
    }
  }

  lemma {:induction false} RunBalance(cfg: Config, run: seq<State>, i: nat)
    requires cfg.Ok() && IsRun(cfg, run) && i < |run|
    ensures Balance(cfg, run[i]) && Work(run[i]) == i + 1
  {
    if i == 0 {
      StartBalance(cfg);
    } else {
      RunBalance(cfg, run, i - 1);
      RunInv(cfg, run, i - 1);
      NextBalance(cfg, run[i - 1], run[i]);
    }
  }

  /** A completed prepare flood takes 2|E| - (n - 1) announcements, n - 1 commitments and
      2|E| - 2(n - 1) loop breaks, where 2|E| is the sum of the degrees. */
  lemma MessageCounts(cfg: Config, run: seq<State>, i: nat)
    requires cfg.Ok() && IsRun(cfg, run) && i < |run| && RootDone(cfg, run[i])
    ensures run[i].sentAnnounces == Total(Degrees(cfg)) - (cfg.N() - 1)
    ensures run[i].sentCommits == cfg.N() - 1
    ensures run[i].sentBreaks == Total(Degrees(cfg)) - 2 * (cfg.N() - 1)
  {
    RunBalance(cfg, run, i);
    EchoCorrect(cfg, run, i);
    forall v: nat | v < cfg.N() ensures run[i].nodes[v].Finished() {
      assert ChildrenExact(cfg, run[i], v);
    }
    CountsWhenDone(cfg, run[i]);
  }

  lemma CountsWhenDone(cfg: Config, s: State)
    requires Balance(cfg, s) && SpanningTree(cfg, s) && s.announces == multiset{}
    requires forall v: nat :: v < cfg.N() ==> s.nodes[v].received && s.nodes[v].Finished()
    ensures s.sentAnnounces == Total(Degrees(cfg)) - (cfg.N() - 1)
    ensures s.sentCommits == cfg.N() - 1
    ensures s.sentBreaks == Total(Degrees(cfg)) - 2 * (cfg.N() - 1)
  {
    var n := cfg.N();
    var ones: seq<nat> := seq(n, _ => 1);
    var rooted := ones[cfg.root := 0];
    TotalConst(ones, 1);
    TotalUpdate(ones, cfg.root, 0);
    assert JoinedOnes(s) == ones;
    assert ReportedOnes(s) == rooted;
    assert forall v: nat :: v < n && v != cfg.root ==> cfg.adj[v] != {};
    assert forall v :: 0 <= v < n ==> SentBy(cfg, s)[v] + rooted[v] == Degrees(cfg)[v];
    TotalMinus(SentBy(cfg, s), rooted, Degrees(cfg));
  }

  lemma HeardBounded(cfg: Config, s: State, v: nat)
    requires Inv(cfg, s) && v < cfg.N()
    ensures s.nodes[v].nrPrepareCommit <= |cfg.adj[v]|
    ensures s.nodes[v].received ==> 0 <= cfg.Expected(v) <= |cfg.adj[v]|
  {
    assert NodeInv(cfg, s, v);
    if s.nodes[v].received {
      ExpectedIsSent(cfg, s, v);
      SubsetCard(AnsweredTo(s, v), cfg.adj[v]);
    }
  }

  /** No run is longer than two deliveries per directed edge. */
  lemma RunsAreShort(cfg: Config, run: seq<State>)
    requires cfg.Ok() && IsRun(cfg, run)
    ensures |run| <= 2 * Total(Degrees(cfg)) + 1
  {
    var s := run[|run| - 1];
    RunBalance(cfg, run, |run| - 1);
    RunInv(cfg, run, |run| - 1);
    forall v: nat | v < cfg.N() ensures Heard(s)[v] <= Degrees(cfg)[v] && SentBy(cfg, s)[v] <= Degrees(cfg)[v] {
      HeardBounded(cfg, s, v);
    }
    TotalMono(Heard(s), Degrees(cfg));
    TotalMono(SentBy(cfg, s), Degrees(cfg));
  }

  ghost predicate Silence(s: State) {
    s.announces == multiset{} && s.breaks == multiset{} && s.commits == multiset{}
  }

  /** With nothing in flight, an unfinished node would wait for an unfinished child, and so on
      down without end. */
  lemma {:induction false} NobodyWaits(cfg: Config, s: State, x: nat)
    requires Inv(cfg, s) && Silence(s) && cfg.adj[cfg.root] != {}
    requires x < cfg.N() && s.nodes[x].received
    ensures s.nodes[x].Finished()
    decreases Highest(s.depth) - s.depth[x]
  {
    hide Inv, NetInv, ChildrenInv, AnsweredTo;
    InvAt(cfg, s, x);
    if !s.nodes[x].Finished() {
      var w := Unanswered(cfg, s, x);
      EdgeAt(cfg, s, x, w);
      assert Adopted(s, x, w) && !s.nodes[w].Finished();
      InvAt(cfg, s, w);
      NobodyWaits(cfg, s, w);
    }
  }

  /** An unfinished node has an announcement without an answer. */
  lemma Unanswered(cfg: Config, s: State, x: nat) returns (w: nat)
    requires Inv(cfg, s) && cfg.adj[cfg.root] != {} && x < cfg.N() && s.nodes[x].received && !s.nodes[x].Finished()
    ensures w in cfg.adj[x] && s.nodes[x].parent != Some(w) && (x, w) !in s.answered
  {
    hide Inv, NetInv, ChildrenInv;
    InvAt(cfg, s, x);
    ExpectedIsSent(cfg, s, x);
    var sent := cfg.adj[x] - (if s.nodes[x].parent.Some? then {s.nodes[x].parent.value} else {});
    assert sent != AnsweredTo(s, x);
    w :| w in sent && w !in AnsweredTo(s, x);
  }

  /** Progress: a run that cannot go on is complete, provided the root has a neighbour; a root
      without neighbours never completes. */
  lemma StopsOnlyWhenDone(cfg: Config, run: seq<State>)
    requires cfg.Ok() && IsRun(cfg, run)
    ensures var s := run[|run| - 1];
            !(exists s' :: Next(cfg, s, s')) && cfg.adj[cfg.root] != {} ==> RootDone(cfg, s)
    ensures forall i :: 0 <= i < |run| && RootDone(cfg, run[i]) ==> cfg.adj[cfg.root] != {}
  {
    var s := run[|run| - 1];
    RunInv(cfg, run, |run| - 1);
    if !(exists s' :: Next(cfg, s, s')) && cfg.adj[cfg.root] != {} {
      Deadlocked(cfg, s);
      NobodyWaits(cfg, s, cfg.root);
    }
    forall i | 0 <= i < |run| && RootDone(cfg, run[i]) ensures cfg.adj[cfg.root] != {} {
      RunInv(cfg, run, i);
      assert NodeInv(cfg, run[i], cfg.root);
    }
  }

  lemma Deadlocked(cfg: Config, s: State)
    requires Inv(cfg, s) && !(exists s' :: Next(cfg, s, s'))
    ensures Silence(s)
  {
    if m :| m in s.announces {
      assert m.1 < cfg.N();
      assert Next(cfg, s, OnAnnounce(cfg, s, m.0, m.1));
    }
    if m :| m in s.breaks {
      assert m.0 < cfg.N();
      assert Next(cfg, s, OnAnswer(cfg, s, m.0, m.1, None));
    }
    if m :| m in s.commits {
      assert Next(cfg, s, OnAnswer(cfg, s, m.0, m.1, Some(m.2)));
    }
  }
}
