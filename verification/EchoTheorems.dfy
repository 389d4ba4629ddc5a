/**
 What holds over whole runs of the echo phase: the invariant in every reachable state, the tree it
 has built when the root is done, how many messages that took, and that it always gets there.
 */
module EchoTheorems {
  import opened Sets
  import opened Walks
  import opened Locality
  import opened Group
  import opened Echo

  lemma StartInv(cfg: Config)
    requires cfg.Ok()
    ensures Inv(cfg, Start(cfg))
  {
    hide Walk, Reach, EdgeInv, NodeInv;
    var s := Start(cfg);
    forall v: nat, w: nat | v < cfg.N() && w in cfg.adj[v] ensures EdgeInv(cfg, s, v, w) { StartEdge(cfg, v, w); }
    forall v: nat | v < cfg.N() ensures NodeInv(cfg, s, v) { StartNode(cfg, v); }
    forall m | m in s.announces ensures m.0 < cfg.N() && m.1 in cfg.adj[m.0] {
      assert m in Pairs(cfg.root, Targets(cfg, cfg.root, None));
    }
  }

  lemma StartEdge(cfg: Config, v: nat, w: nat)
    requires Undirected(cfg.adj) && cfg.root < cfg.N() && v < cfg.N() && w in cfg.adj[v]
    ensures EdgeInv(cfg, Start(cfg), v, w)
  {
    assert w < cfg.N() && w != v;
  }

  lemma StartNode(cfg: Config, v: nat)
    requires cfg.root < cfg.N() && v < cfg.N()
    ensures NodeInv(cfg, Start(cfg), v)
  {
    assert AnsweredTo(Start(cfg), v) == {};
  }

  lemma NextInv(cfg: Config, s: State, s': State)
    requires Inv(cfg, s) && Next(cfg, s, s')
    ensures Inv(cfg, s')
  {
    hide Inv, OnAnnounce, OnAnswer;
    if v: nat, w: nat :| v < cfg.N() && w < cfg.N() && (v, w) in s.announces && s' == OnAnnounce(cfg, s, v, w) {
      if s.nodes[w].received { BreakKeeps(cfg, s, v, w); } else { JoinKeeps(cfg, s, v, w); }
    } else if v: nat, w: nat :| v < cfg.N() && w < cfg.N() && (w, v) in s.breaks && s' == OnAnswer(cfg, s, w, v, None) {
      AnswerKeeps(cfg, s, w, v, None);
    } else {
      var v: nat, w: nat, g: Point :| v < cfg.N() && w < cfg.N() && (w, v, g) in s.commits
          && s' == OnAnswer(cfg, s, w, v, Some(g));
      AnswerKeeps(cfg, s, w, v, Some(g));
    }
  }

  /** Every state of every run satisfies the invariant. */
  lemma {:induction false} RunInv(cfg: Config, run: seq<State>, i: nat)
    requires cfg.Ok() && IsRun(cfg, run) && i < |run|
    ensures Inv(cfg, run[i])
  {
    if i == 0 {
      StartInv(cfg);
    } else {
      RunInv(cfg, run, i - 1);
      NextInv(cfg, run[i - 1], run[i]);
    }
  }

  ghost predicate RootDone(cfg: Config, s: State) {
    cfg.root < |s.nodes| && s.nodes[cfg.root].Finished()
  }

  /** A finished node has had every announcement answered. */
  lemma FinishedAnswered(cfg: Config, s: State, v: nat, w: nat)
    requires Inv(cfg, s) && v < cfg.N() && s.nodes[v].Finished() && Sent(cfg, s, v, w)
    ensures (v, w) in s.answered
  {
    assert NodeInv(cfg, s, v);
    ExpectedIsSent(cfg, s, v);
    var sent := cfg.adj[v] - (if s.nodes[v].parent.Some? then {s.nodes[v].parent.value} else {});
    assert w in sent;
    if w !in AnsweredTo(s, v) {
      assert AnsweredTo(s, v) <= sent - {w};
      SubsetCard(AnsweredTo(s, v), sent - {w});
    }
  }

  /** When the root is done, so is every node that joined: otherwise its parent would still wait. */
  lemma {:induction false} JoinedFinished(cfg: Config, s: State, x: nat)
    requires Inv(cfg, s) && RootDone(cfg, s) && x < cfg.N() && s.nodes[x].received
    ensures s.nodes[x].Finished()
    decreases s.depth[x]
  {
    if x != cfg.root {
      assert NodeInv(cfg, s, x);
      var p := s.nodes[x].parent.value;
      JoinedFinished(cfg, s, p);
      assert NodeInv(cfg, s, p);
      assert x in cfg.adj[p];
      FinishedAnswered(cfg, s, p, x);
      assert EdgeInv(cfg, s, p, x);
    }
  }

  lemma {:induction false} JoinedAlong(cfg: Config, s: State, p: seq<nat>, v: nat)
    requires Inv(cfg, s) && RootDone(cfg, s) && Walk(cfg.adj, Below(cfg.N()), p, cfg.root, v)
    ensures s.nodes[v].received
    decreases |p|
  {
    if |p| > 1 {
      var q, u := p[..|p| - 1], p[|p| - 2];
      forall i | 0 <= i < |q| - 1 ensures Step(cfg.adj, q, i) { assert Step(cfg.adj, p, i); }
      JoinedAlong(cfg, s, q, u);
      assert Step(cfg.adj, p, |p| - 2);
      JoinedFinished(cfg, s, u);
      assert NodeInv(cfg, s, u);
      if s.nodes[u].parent != Some(v) {
        FinishedAnswered(cfg, s, u, v);
        assert EdgeInv(cfg, s, u, v);
      }
    }
  }

  lemma EveryoneJoined(cfg: Config, s: State, v: nat)
    requires Inv(cfg, s) && RootDone(cfg, s) && v < cfg.N()
    ensures s.nodes[v].received && s.nodes[v].Finished()
  {
    assert Reach(cfg.adj, Below(cfg.N()), cfg.root, v);
    var p :| Walk(cfg.adj, Below(cfg.N()), p, cfg.root, v);
    JoinedAlong(cfg, s, p, v);
    JoinedFinished(cfg, s, v);
  }

  /** Parent pointers form a spanning tree of the graph, rooted at the initiator. */
  ghost predicate SpanningTree(cfg: Config, s: State) {
    && cfg.root < cfg.N() && |s.nodes| == |s.depth| == cfg.N()
    && s.nodes[cfg.root].parent == None
    && forall v: nat :: v < cfg.N() && v != cfg.root ==>
         s.nodes[v].parent.Some? && s.nodes[v].parent.value in cfg.adj[v] && s.nodes[v].parent.value < cfg.N()
         && s.depth[v] == s.depth[s.nodes[v].parent.value] + 1
  }

  /** dynamicChildren(v) lists exactly the nodes whose parent is v, once each, with their commitments. */
  ghost predicate ChildrenExact(cfg: Config, s: State, v: nat) {
    && v < cfg.N() && |s.nodes| == cfg.N()
    && var node := s.nodes[v];
    && (forall w: nat :: w in node.dynamicChildren <==> w < cfg.N() && s.nodes[w].parent == Some(v))
    && Distinct(node.dynamicChildren)
    && |node.tempPrepareCommit| == |node.dynamicChildren|
    && (forall i :: 0 <= i < |node.dynamicChildren| ==>
          node.dynamicChildren[i] < cfg.N()
              && s.nodes[node.dynamicChildren[i]].commitment == Some(node.tempPrepareCommit[i]))
    && node.commitment == Some(cfg.combine(v, node.tempPrepareCommit))
  }

  lemma ChildrenAreExact(cfg: Config, s: State, v: nat)
    requires Inv(cfg, s) && RootDone(cfg, s) && v < cfg.N()
    ensures ChildrenExact(cfg, s, v)
  {
    EveryoneJoined(cfg, s, v);
    assert NodeInv(cfg, s, v);
    forall w: nat | w < cfg.N() && s.nodes[w].parent == Some(v) ensures (v, w) in s.answered && Adopted(s, v, w) {
      EveryoneJoined(cfg, s, w);
      assert NodeInv(cfg, s, w);
      assert w in cfg.adj[v] && s.nodes[v].parent != Some(w);
      FinishedAnswered(cfg, s, v, w);
    }
  }

  lemma NothingInFlight(cfg: Config, s: State)
    requires Inv(cfg, s) && RootDone(cfg, s)
    ensures s.announces == multiset{} && s.breaks == multiset{} && s.commits == multiset{}
  {
    forall m | m in s.announces ensures false { Quiet(cfg, s, m.0, m.1); }
    forall m | m in s.breaks ensures false { Quiet(cfg, s, m.1, m.0); }
    forall m | m in s.commits ensures false {
      assert NodeInv(cfg, s, m.0);
      Quiet(cfg, s, m.1, m.0);
    }
  }

  lemma Quiet(cfg: Config, s: State, v: nat, w: nat)
    requires Inv(cfg, s) && RootDone(cfg, s) && v < cfg.N() && w in cfg.adj[v]
    ensures w < cfg.N() && s.announces[(v, w)] == 0 && s.breaks[(w, v)] == 0 && CommitsInFlight(s, w, v) == 0
  {
    assert w < cfg.N();
    EveryoneJoined(cfg, s, v);
    assert EdgeInv(cfg, s, v, w);
    if s.nodes[v].parent != Some(w) { FinishedAnswered(cfg, s, v, w); }
  }

  /** Echo correctness: in every run, once the root has all its answers, everyone has joined, the
      parents form a spanning tree, the child lists are exact, and no message is left. */
  lemma EchoCorrect(cfg: Config, run: seq<State>, i: nat)
    requires cfg.Ok() && IsRun(cfg, run) && i < |run| && RootDone(cfg, run[i])
    ensures |run[i].nodes| == cfg.N()
    ensures forall v: nat :: v < cfg.N() ==> run[i].nodes[v].received && ChildrenExact(cfg, run[i], v)
    ensures SpanningTree(cfg, run[i])
    ensures run[i].announces == multiset{} && run[i].breaks == multiset{} && run[i].commits == multiset{}
  {
    var s := run[i];
    RunInv(cfg, run, i);
    NothingInFlight(cfg, s);
    forall v: nat | v < cfg.N() ensures s.nodes[v].received && ChildrenExact(cfg, s, v) && ParentInv(cfg, s, v) {
      EveryoneJoined(cfg, s, v);
      ChildrenAreExact(cfg, s, v);
      assert NodeInv(cfg, s, v);
    }
    assert ParentInv(cfg, s, cfg.root);
  }
}
