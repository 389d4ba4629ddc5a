/**
 The prepare phase of BFTCoSi: an echo algorithm on the locality graph.  A node's parent is the
 sender of the first announcement, later announcements are answered with LoopBreak, and a node
 reports up once every announcement it sent has been answered.  Handlers are atomic; messages are
 delivered in any order.
 */
module Echo {
  import opened Sets
  import opened Walks
  import opened Locality
  import opened Group

  /** What one node keeps during the prepare round. */
  datatype Node = Node(
    received: bool,                 // ReceivedMessages holds the announcement
    parent: Option<nat>,
    nrPrepareCommit: nat,
    dynamicChildren: seq<nat>,
    tempPrepareCommit: seq<Point>,
    commitment: Option<Point>)          // set when handleCommitmentPrepare is done
  {
    predicate Finished() { commitment.Some? }
  }

  /** combine is prepare.Commit: a node's own commitment together with those of its children. */
  datatype Config = Config(adj: seq<set<nat>>, root: nat, combine: (nat, seq<Point>) -> Point)
  {
    function N(): nat { |adj| }

    ghost predicate Ok() {
      && Undirected(adj) && root < N()
      && forall v: nat :: v < N() ==> Reach(adj, Below(N()), root, v)
    }

    /** nrNeighbors + neighborsToWaitForCorrection */
    function Expected(v: nat): int
      requires v < N()
    {
      |adj[v]| - if v == root then 0 else 1
    }
  }

  function Silent(): Node { Node(false, None, 0, [], [], None) }

  function Finish(cfg: Config, me: nat, node: Node): Node {
    node.(commitment := Some(cfg.combine(me, node.tempPrepareCommit)))
  }

  /** A first announcement: the leaf case closes the commit channel and reports at once. */
  function Joins(cfg: Config, me: nat, node: Node, sender: Option<nat>): Node
    requires me < cfg.N()
  {
    var joined := node.(received := true, parent := sender);
    if |cfg.adj[me]| == 1 && sender.Some? then Finish(cfg, me, joined) else joined
  }

  /** Neighbours a node that has just joined announces to. */
  function Targets(cfg: Config, me: nat, sender: Option<nat>): set<nat>
    requires me < cfg.N()
  {
    if |cfg.adj[me]| == 1 && sender.Some? then {} else cfg.adj[me] - (if sender.Some? then {sender.value} else {})
  }

  /** updateCommitPrepAndCompare: com is None for LoopBreak. */
  function Hears(cfg: Config, me: nat, node: Node, com: Option<(nat, Point)>): Node
    requires me < cfg.N()
  {
    var heard := node.(nrPrepareCommit := node.nrPrepareCommit + 1);
    var stored := if com.None? then heard else
      heard.(tempPrepareCommit := heard.tempPrepareCommit + [com.value.1],
             dynamicChildren := heard.dynamicChildren + [com.value.0]);
    if stored.nrPrepareCommit == cfg.Expected(me) then Finish(cfg, me, stored) else stored
  }

  /** The whole system.  depth, answered and the three totals are history. */
  datatype State = State(
    nodes: seq<Node>,
    announces: multiset<(nat, nat)>,      // in flight, (from, to)
    breaks: multiset<(nat, nat)>,
    commits: multiset<(nat, nat, Point)>,
    depth: seq<nat>,
    answered: set<(nat, nat)>,            // (v, w): w's answer to v's announcement has been handled
    sentAnnounces: nat,
    sentBreaks: nat,
    sentCommits: nat)

  function Start(cfg: Config): State
    requires cfg.root < cfg.N()
  {
    State(seq(cfg.N(), _ => Silent())[cfg.root := Joins(cfg, cfg.root, Silent(), None)],
          multiset(Pairs(cfg.root, Targets(cfg, cfg.root, None))), multiset{}, multiset{},
          seq(cfg.N(), _ => 0), {}, |cfg.adj[cfg.root]|, 0, 0)
  }

  /** The commitment a node sends up when it has just finished. */
  function Report(node: Node, me: nat): multiset<(nat, nat, Point)> {
    if node.commitment.Some? && node.parent.Some? then multiset{(me, node.parent.value, node.commitment.value)}
    else multiset{}
  }

  /** readAnnouncement at w of a message from v. */
  function OnAnnounce(cfg: Config, s: State, v: nat, w: nat): State
    requires |s.nodes| == |s.depth| == cfg.N() && v < cfg.N() && w < cfg.N()
  {
    var rest := s.(announces := s.announces - multiset{(v, w)});
    if s.nodes[w].received then
      rest.(breaks := s.breaks + multiset{(w, v)}, sentBreaks := s.sentBreaks + 1)
    else
      var node := Joins(cfg, w, s.nodes[w], Some(v));
      rest.(nodes := s.nodes[w := node],
            announces := rest.announces + multiset(Pairs(w, Targets(cfg, w, Some(v)))),
            commits := s.commits + Report(node, w),
            depth := s.depth[w := s.depth[v] + 1],
            sentAnnounces := s.sentAnnounces + |Targets(cfg, w, Some(v))|,
            sentCommits := s.sentCommits + |Report(node, w)|)
  }

  /** readCommitChan at v: an answer of w, LoopBreak when com is None. */
  function OnAnswer(cfg: Config, s: State, w: nat, v: nat, com: Option<Point>): State
    requires |s.nodes| == cfg.N() && v < cfg.N() && w < cfg.N()
  {
    var node := Hears(cfg, v, s.nodes[v], if com.Some? then Some((w, com.value)) else None);
    var report := if s.nodes[v].Finished() then multiset{} else Report(node, v);
    s.(nodes := s.nodes[v := node],
       breaks := if com.Some? then s.breaks else s.breaks - multiset{(w, v)},
       commits := (if com.Some? then s.commits - multiset{(w, v, com.value)} else s.commits) + report,
       answered := s.answered + {(v, w)},
       sentCommits := s.sentCommits + |report|)
  }

  ghost predicate Next(cfg: Config, s: State, s': State) {
    && |s.nodes| == |s.depth| == cfg.N()
    && ((exists v: nat, w: nat ::
            v < cfg.N() && w < cfg.N() && (v, w) in s.announces && s' == OnAnnounce(cfg, s, v, w)) ||
        (exists v: nat, w: nat ::
            v < cfg.N() && w < cfg.N() && (w, v) in s.breaks && s' == OnAnswer(cfg, s, w, v, None)) ||
        (exists v: nat, w: nat, g: Point ::
            v < cfg.N() && w < cfg.N() && (w, v, g) in s.commits && s' == OnAnswer(cfg, s, w, v, Some(g))))
  }

  ghost predicate IsRun(cfg: Config, run: seq<State>) {
    && cfg.root < cfg.N() && run != [] && run[0] == Start(cfg)
    && forall i :: 0 <= i < |run| - 1 ==> Next(cfg, run[i], run[i + 1])
  }

  // ---------------------------------------------------------------- invariant

  ghost predicate Sent(cfg: Config, s: State, v: nat, w: nat)
    requires v < cfg.N() && |s.nodes| == cfg.N()
  {
    s.nodes[v].received && w in cfg.adj[v] && s.nodes[v].parent != Some(w)
  }

  /** w adopted v as its parent. */
  ghost predicate Adopted(s: State, v: nat, w: nat) {
    w < |s.nodes| && s.nodes[w].received && s.nodes[w].parent == Some(v)
  }

  ghost function CommitsInFlight(s: State, w: nat, v: nat): nat {
    if w < |s.nodes| && s.nodes[w].commitment.Some? then s.commits[(w, v, s.nodes[w].commitment.value)] else 0
  }

  /** Message conservation on one directed edge: an announcement sent is in flight, awaiting its
      adopter's commitment, answered by a message in flight, or answered, exactly one of these. */
  ghost predicate EdgeInv(cfg: Config, s: State, v: nat, w: nat) {
    && v < cfg.N() && w < cfg.N() && |s.nodes| == cfg.N()
    && s.announces[(v, w)] + s.breaks[(w, v)] + CommitsInFlight(s, w, v)
       + (if Adopted(s, v, w) && !s.nodes[w].Finished() then 1 else 0)
       + (if (v, w) in s.answered then 1 else 0)
       == (if Sent(cfg, s, v, w) then 1 else 0)
    && (Adopted(s, v, w) ==> s.announces[(v, w)] == 0 && s.breaks[(w, v)] == 0)
    && ((v, w) in s.answered || s.breaks[(w, v)] > 0 ==> s.nodes[w].received)
    && ((v, w) in s.answered && Adopted(s, v, w) ==> s.nodes[w].Finished())
  }

  ghost function AnsweredTo(s: State, v: nat): set<nat> {
    set p | p in s.answered && p.0 == v :: p.1
  }

  /** dynamicChildren lists, once each, the adopters whose commitments have been handled. */
  ghost predicate ChildrenInv(cfg: Config, s: State, v: nat) {
    && v < |s.nodes| && |s.nodes| == cfg.N()
    && var node := s.nodes[v];
    && Distinct(node.dynamicChildren)
    && (forall w: nat :: w in node.dynamicChildren <==> (v, w) in s.answered && Adopted(s, v, w))
    && |node.tempPrepareCommit| == |node.dynamicChildren|
    && (forall i :: 0 <= i < |node.dynamicChildren| ==>
          node.dynamicChildren[i] < cfg.N()
              && s.nodes[node.dynamicChildren[i]].commitment == Some(node.tempPrepareCommit[i]))
  }

  /** A node is finished once all its announcements are answered. */
  ghost predicate PhaseInv(cfg: Config, v: nat, node: Node) {
    && v < cfg.N()
    && (node.Finished() ==> node.received && node.commitment == Some(cfg.combine(v, node.tempPrepareCommit)))
    && (node.received ==> (node.Finished() <==> node.nrPrepareCommit == cfg.Expected(v) && cfg.adj[v] != {}))
    && (!node.received ==> node == Silent())
  }

  ghost predicate ParentInv(cfg: Config, s: State, v: nat) {
    && v < cfg.N() && |s.nodes| == |s.depth| == cfg.N()
    && var node := s.nodes[v];
    && (node.received && v != cfg.root ==> node.parent.Some? && node.parent.value in cfg.adj[v])
    && (node.parent.Some? ==>
          (node.received && v != cfg.root && node.parent.value < cfg.N() && s.nodes[node.parent.value].received
           && s.depth[v] == s.depth[node.parent.value] + 1))
  }

  ghost predicate NodeInv(cfg: Config, s: State, v: nat) {
    && v < |s.nodes| && s.nodes[v].nrPrepareCommit == |AnsweredTo(s, v)|
    && ChildrenInv(cfg, s, v) && PhaseInv(cfg, v, s.nodes[v]) && ParentInv(cfg, s, v)
  }

  ghost predicate NetInv(cfg: Config, s: State) {
    && |s.nodes| == cfg.N()
    && (forall m :: m in s.announces ==> m.0 < cfg.N() && m.1 in cfg.adj[m.0])
    && (forall m :: m in s.breaks ==> m.1 < cfg.N() && m.0 in cfg.adj[m.1])
    && (forall m :: m in s.commits ==>
        m.0 < cfg.N() && m.1 < cfg.N() && s.nodes[m.0].parent == Some(m.1) && s.nodes[m.0].commitment == Some(m.2))
    && (forall p :: p in s.answered ==> p.0 < cfg.N() && p.1 in cfg.adj[p.0])
  }

  ghost predicate EdgesInv(cfg: Config, s: State) {
    && |s.nodes| == cfg.N()
    && forall v: nat, w: nat {:trigger EdgeInv(cfg, s, v, w)} :: v < cfg.N() && w in cfg.adj[v] ==>
         EdgeInv(cfg, s, v, w)
  }

  ghost predicate NodesInv(cfg: Config, s: State) {
    && cfg.root < cfg.N() && |s.nodes| == |s.depth| == cfg.N() && s.nodes[cfg.root].received
    && forall v: nat :: v < cfg.N() ==> NodeInv(cfg, s, v)
  }

  ghost predicate Inv(cfg: Config, s: State) {
    cfg.Ok() && NetInv(cfg, s) && NodesInv(cfg, s) && EdgesInv(cfg, s)
  }

  lemma InvAt(cfg: Config, s: State, v: nat)
    requires Inv(cfg, s) && v < cfg.N()
    ensures |s.nodes| == |s.depth| == cfg.N() && NetInv(cfg, s) && cfg.Ok()
    ensures ChildrenInv(cfg, s, v) && PhaseInv(cfg, v, s.nodes[v]) && ParentInv(cfg, s, v)
    ensures s.nodes[v].nrPrepareCommit == |AnsweredTo(s, v)|
  {
    assert NodeInv(cfg, s, v);
  }

  lemma EdgeAt(cfg: Config, s: State, x: nat, y: nat)
    requires Inv(cfg, s) && x < cfg.N() && y in cfg.adj[x]
    ensures EdgeInv(cfg, s, x, y) && y < cfg.N() && x != y && x in cfg.adj[y] && |s.nodes| == |s.depth| == cfg.N()
  {
  }

  lemma NotOwnChild(cfg: Config, s: State, v: nat)
    requires Inv(cfg, s) && v < cfg.N()
    ensures (v, v) !in s.answered && v !in s.nodes[v].dynamicChildren
  {
    assert NodeInv(cfg, s, v);
  }

  /** The announcements a joined node sends are one per neighbour but the parent. */
  lemma ExpectedIsSent(cfg: Config, s: State, v: nat)
    requires Inv(cfg, s) && v < cfg.N() && s.nodes[v].received
    ensures var sent := cfg.adj[v] - (if s.nodes[v].parent.Some? then {s.nodes[v].parent.value} else {});
            |sent| == cfg.Expected(v) && AnsweredTo(s, v) <= sent
  {
    assert NodeInv(cfg, s, v);
    forall w | w in AnsweredTo(s, v) ensures w in cfg.adj[v] && s.nodes[v].parent != Some(w) {
      assert (v, w) in s.answered;
      assert EdgeInv(cfg, s, v, w);
    }
  }

  lemma BreakKeeps(cfg: Config, s: State, v: nat, w: nat)
    requires Inv(cfg, s) && v < cfg.N() && w < cfg.N() && (v, w) in s.announces && s.nodes[w].received
    ensures Inv(cfg, OnAnnounce(cfg, s, v, w))
  {
    hide EdgeInv, NodeInv, NetInv;
    var s' := OnAnnounce(cfg, s, v, w);
    BreakNet(cfg, s, v, w);
    forall x: nat, y: nat | x < cfg.N() && y in cfg.adj[x] ensures EdgeInv(cfg, s', x, y) {
      BreakEdge(cfg, s, v, w, x, y);
    }
    forall x: nat | x < cfg.N() ensures NodeInv(cfg, s', x) { SameNode(cfg, s, s', x); }
  }

  lemma BreakNet(cfg: Config, s: State, v: nat, w: nat)
    requires NetInv(cfg, s) && |s.depth| == cfg.N() && v < cfg.N() && w < cfg.N()
    requires (v, w) in s.announces && s.nodes[w].received
    ensures NetInv(cfg, OnAnnounce(cfg, s, v, w))
  {
  }

  lemma BreakEdge(cfg: Config, s: State, v: nat, w: nat, x: nat, y: nat)
    requires Inv(cfg, s) && v < cfg.N() && w < cfg.N() && (v, w) in s.announces && s.nodes[w].received
    requires x < cfg.N() && y in cfg.adj[x]
    ensures EdgeInv(cfg, OnAnnounce(cfg, s, v, w), x, y)
  {
    hide Inv;
    AnnounceEdge(cfg, s, v, w);
    EdgeAt(cfg, s, v, w);
    EdgeAt(cfg, s, x, y);
  }

  lemma AnnounceEdge(cfg: Config, s: State, v: nat, w: nat)
    requires Inv(cfg, s) && v < cfg.N() && (v, w) in s.announces
    ensures w in cfg.adj[v]
  {
  }

  lemma SameNode(cfg: Config, s: State, s': State, x: nat)
    requires NodeInv(cfg, s, x) && s'.nodes == s.nodes && s'.depth == s.depth && s'.answered == s.answered
    ensures NodeInv(cfg, s', x)
  {
    assert AnsweredTo(s', x) == AnsweredTo(s, x);
    assert forall v: nat, w: nat :: Adopted(s', v, w) <==> Adopted(s, v, w);
  }

  /** Nothing is known of a silent node: it has sent nothing and nobody waits for its answer. */
  lemma SilentFacts(cfg: Config, s: State, w: nat)
    requires Inv(cfg, s) && w < cfg.N() && !s.nodes[w].received
    ensures s.nodes[w] == Silent() && AnsweredTo(s, w) == {}
    ensures forall m :: m in s.commits ==> m.0 != w
    ensures forall x: nat :: x < cfg.N() ==> s.nodes[x].parent != Some(w)
    ensures forall x: nat :: x in cfg.adj[w] ==> s.announces[(w, x)] == 0 && s.breaks[(x, w)] == 0
    ensures forall q :: q in s.answered ==> q.0 != w && q.1 != w
  {
    assert NodeInv(cfg, s, w);
    forall x: nat | x < cfg.N() ensures s.nodes[x].parent != Some(w) { assert NodeInv(cfg, s, x); }
    forall x: nat | x in cfg.adj[w] ensures s.announces[(w, x)] == 0 && s.breaks[(x, w)] == 0 {
      assert EdgeInv(cfg, s, w, x);
      assert EdgeInv(cfg, s, x, w);
    }
    forall q | q in s.answered ensures q.0 != w && q.1 != w {
      assert EdgeInv(cfg, s, q.0, q.1);
    }
  }

  /** OnAnnounce field by field, for a node that joins. */
  ghost predicate JoinShape(cfg: Config, s: State, s': State, v: nat, w: nat) {
    && |s.nodes| == |s'.nodes| == |s.depth| == |s'.depth| == cfg.N() && v < cfg.N() && w < cfg.N()
    && s'.breaks == s.breaks && s'.answered == s.answered
    && (forall x: nat :: x < cfg.N() && x != w ==> s'.nodes[x] == s.nodes[x] && s'.depth[x] == s.depth[x])
    && s'.depth[w] == s.depth[v] + 1
    && s'.nodes[w] == Joins(cfg, w, Silent(), Some(v))
    && (forall m :: s'.announces[m] + (if m == (v, w) then 1 else 0)
                    == s.announces[m] + (if m.0 == w && m.1 in Targets(cfg, w, Some(v)) then 1 else 0))
    && (forall m :: s'.commits[m]
                    == s.commits[m] + (if s'.nodes[w].commitment.Some? && m == (w, v, s'.nodes[w].commitment.value)
                        then 1 else 0))
  }

  lemma HasJoinShape(cfg: Config, s: State, v: nat, w: nat)
    requires |s.nodes| == |s.depth| == cfg.N() && v < cfg.N() && w < cfg.N() && v != w
    requires (v, w) in s.announces && s.nodes[w] == Silent()
    ensures JoinShape(cfg, s, OnAnnounce(cfg, s, v, w), v, w)
  {
    hide Targets, Pairs, Report, Finish;
    var s', targets := OnAnnounce(cfg, s, v, w), Targets(cfg, w, Some(v));
    var node := s'.nodes[w];
    assert s'.announces == s.announces - multiset{(v, w)} + multiset(Pairs(w, targets));
    assert s'.commits == s.commits + Report(node, w);
    assert node == Joins(cfg, w, Silent(), Some(v)) && node.parent == Some(v) by { JoinsUnder(cfg, w, v); }
    PairsAdded(s.announces, v, w, targets);
    ReportAdded(s.commits, node, v, w);
  }

  lemma JoinsUnder(cfg: Config, w: nat, v: nat)
    requires w < cfg.N()
    ensures Joins(cfg, w, Silent(), Some(v)).parent == Some(v)
  {
  }

  lemma ReportAdded(commits: multiset<(nat, nat, Point)>, node: Node, v: nat, w: nat)
    requires node.parent == Some(v)
    ensures forall m :: (commits + Report(node, w))[m]
                        == commits[m] + (if node.commitment.Some? && m == (w, v, node.commitment.value) then 1 else 0)
  {
  }

  lemma PairsAdded(announces: multiset<(nat, nat)>, v: nat, w: nat, targets: set<nat>)
    requires (v, w) in announces
    ensures forall m :: (announces - multiset{(v, w)} + multiset(Pairs(w, targets)))[m] + (if m == (v, w) then 1 else 0)
                        == announces[m] + (if m.0 == w && m.1 in targets then 1 else 0)
  {
    var p := Pairs(w, targets);
    assert forall m :: multiset(p)[m] == if m in p then 1 else 0;
    assert forall m :: m in p <==> m.0 == w && m.1 in targets;
  }

  /** The situation of a join step, as the lemmas below need it. */
  ghost predicate Joining(cfg: Config, s: State, s': State, v: nat, w: nat) {
    && Inv(cfg, s) && v < cfg.N() && w < cfg.N() && (v, w) in s.announces && !s.nodes[w].received
    && JoinShape(cfg, s, s', v, w)
  }

  lemma JoinFacts(cfg: Config, s: State, v: nat, w: nat)
    requires Inv(cfg, s) && v < cfg.N() && w < cfg.N() && (v, w) in s.announces && !s.nodes[w].received
    ensures s.nodes[w] == Silent() && w != cfg.root && v != w && v in cfg.adj[w] && w in cfg.adj[v]
    ensures |cfg.adj[w]| == 1 ==> cfg.adj[w] == {v}
    ensures |Targets(cfg, w, Some(v))| == cfg.Expected(w)
    ensures |s.nodes| == |s.depth| == cfg.N() && s.nodes[v].received && (v, w) !in s.answered
  {
    SilentFacts(cfg, s, w);
    assert w in cfg.adj[v] && v in cfg.adj[w];
    assert EdgeInv(cfg, s, v, w);
    Singleton(cfg.adj[w], v);
  }

  lemma JoinEdges(cfg: Config, s: State, s': State, v: nat, w: nat, x: nat, y: nat)
    requires Joining(cfg, s, s', v, w) && x < cfg.N() && y in cfg.adj[x]
    ensures EdgeInv(cfg, s', x, y)
  {
    hide Inv, AnsweredTo, EdgeInv;
    SilentFacts(cfg, s, w);
    JoinFacts(cfg, s, v, w);
    EdgeAt(cfg, s, x, y);
    EdgeAt(cfg, s, v, w);
    JoinedEdge(cfg, s, s', v, w, x, y);
  }

  lemma JoinedEdge(cfg: Config, s: State, s': State, v: nat, w: nat, x: nat, y: nat)
    requires JoinShape(cfg, s, s', v, w) && EdgeInv(cfg, s, x, y) && EdgeInv(cfg, s, v, w) && x != y && y in cfg.adj[x]
    requires s.nodes[w] == Silent() && v != w && v in cfg.adj[w] && w in cfg.adj[v] && (v, w) in s.announces
    requires |cfg.adj[w]| == 1 ==> cfg.adj[w] == {v}
    requires forall m :: m in s.commits ==> m.0 != w
    requires forall u: nat :: u < cfg.N() ==> s.nodes[u].parent != Some(w)
    requires forall u: nat :: u in cfg.adj[w] ==> s.announces[(w, u)] == 0 && s.breaks[(u, w)] == 0
    requires forall q :: q in s.answered ==> q.0 != w && q.1 != w
    ensures EdgeInv(cfg, s', x, y)
  {
  }

  lemma Singleton(s: set<nat>, v: nat)
    requires v in s
    ensures |s| == 1 ==> s == {v}
  {
    assert |s - {v}| == |s| - 1;
  }

  lemma JoinNodes(cfg: Config, s: State, s': State, v: nat, w: nat, x: nat)
    requires Joining(cfg, s, s', v, w) && x < cfg.N()
    ensures NodeInv(cfg, s', x)
  {
    hide Inv, NetInv;
    SilentFacts(cfg, s, w);
    JoinFacts(cfg, s, v, w);
    InvAt(cfg, s, x);
    InvAt(cfg, s, w);
    assert AnsweredTo(s', x) == AnsweredTo(s, x);
    hide AnsweredTo;
    if x != w { JoinOthers(cfg, s, s', v, w, x); }
  }

  lemma JoinOthers(cfg: Config, s: State, s': State, v: nat, w: nat, x: nat)
    requires Joining(cfg, s, s', v, w) && x < cfg.N() && x != w
    ensures ChildrenInv(cfg, s', x)
  {
    hide Inv, NetInv, AnsweredTo, PhaseInv, ParentInv;
    SilentFacts(cfg, s, w);
    JoinFacts(cfg, s, v, w);
    InvAt(cfg, s, x);
    assert w !in s.nodes[x].dynamicChildren;
    assert forall y: nat :: y != w ==> (Adopted(s', x, y) <==> Adopted(s, x, y));
    assert forall i :: 0 <= i < |s.nodes[x].dynamicChildren| ==>
        s.nodes[x].dynamicChildren[i] in s.nodes[x].dynamicChildren;
  }

  lemma JoinNet(cfg: Config, s: State, s': State, v: nat, w: nat)
    requires Joining(cfg, s, s', v, w)
    ensures NetInv(cfg, s')
  {
    hide Inv, AnsweredTo, ChildrenInv, PhaseInv, ParentInv;
    SilentFacts(cfg, s, w);
    JoinFacts(cfg, s, v, w);
    InvAt(cfg, s, v);
    forall m | m in s'.announces ensures m.0 < cfg.N() && m.1 in cfg.adj[m.0] {
      assert m in s.announces || m.0 == w;
    }
  }

  lemma JoinKeeps(cfg: Config, s: State, v: nat, w: nat)
    requires Inv(cfg, s) && v < cfg.N() && w < cfg.N() && (v, w) in s.announces && !s.nodes[w].received
    ensures Inv(cfg, OnAnnounce(cfg, s, v, w))
  {
    hide EdgeInv, NodeInv, NetInv, OnAnnounce, Targets, Joins;
    JoinFacts(cfg, s, v, w);
    HasJoinShape(cfg, s, v, w);
    var s' := OnAnnounce(cfg, s, v, w);
    JoinNet(cfg, s, s', v, w);
    forall x: nat, y: nat | x < cfg.N() && y in cfg.adj[x] ensures EdgeInv(cfg, s', x, y) {
      JoinEdges(cfg, s, s', v, w, x, y);
    }
    forall x: nat | x < cfg.N() ensures NodeInv(cfg, s', x) { JoinNodes(cfg, s, s', v, w, x); }
  }

  /** An answer on its way: LoopBreak, or the commitment of an adopter. */
  ghost predicate AnswerComing(s: State, w: nat, v: nat, com: Option<Point>) {
    if com.Some? then (w, v, com.value) in s.commits else (w, v) in s.breaks
  }

  lemma AnswerFacts(cfg: Config, s: State, w: nat, v: nat, com: Option<Point>)
    requires Inv(cfg, s) && v < cfg.N() && w < cfg.N() && AnswerComing(s, w, v, com)
    ensures w in cfg.adj[v] && Sent(cfg, s, v, w) && (v, w) !in s.answered
    ensures !s.nodes[v].Finished() && s.nodes[w].received && v != w
    ensures com.Some? ==> Adopted(s, v, w) && s.nodes[w].commitment == com && s.commits[(w, v, com.value)] == 1
    ensures com.None? ==> !Adopted(s, v, w) && s.breaks[(w, v)] == 1
    ensures AnsweredTo(s, v) + {w} <= cfg.adj[v] && w !in AnsweredTo(s, v)
    ensures s.nodes[v].nrPrepareCommit + 1 <= cfg.Expected(v)
    ensures forall m :: m in s.commits ==> m.0 != v
  {
    if com.Some? { assert NodeInv(cfg, s, w); }
    assert w in cfg.adj[v];
    assert EdgeInv(cfg, s, v, w);
    assert NodeInv(cfg, s, v);
    ExpectedIsSent(cfg, s, v);
    var sent := cfg.adj[v] - (if s.nodes[v].parent.Some? then {s.nodes[v].parent.value} else {});
    assert AnsweredTo(s, v) + {w} <= sent;
    SubsetCard(AnsweredTo(s, v) + {w}, sent);
  }

  /** The node that hears an answer, field by field. */
  ghost predicate HeardShape(cfg: Config, node: Node, node': Node, w: nat, v: nat, com: Option<Point>) {
    && v < cfg.N()
    && node'.received == node.received && node'.parent == node.parent
    && node'.nrPrepareCommit == node.nrPrepareCommit + 1
    && node'.dynamicChildren == node.dynamicChildren + (if com.Some? then [w] else [])
    && node'.tempPrepareCommit == node.tempPrepareCommit + (if com.Some? then [com.value] else [])
    && node'.commitment
       == (if node'.nrPrepareCommit == cfg.Expected(v) then Some(cfg.combine(v, node'.tempPrepareCommit)) else None)
  }

  /** The messages in flight after an answer of w has been handled at v. */
  ghost predicate FlightShape(s: State, s': State, node: Node, w: nat, v: nat, com: Option<Point>) {
    && (forall m :: s'.breaks[m] + (if com.None? && m == (w, v) then 1 else 0) == s.breaks[m])
    && (forall m :: s'.commits[m] + (if com.Some? && m == (w, v, com.value) then 1 else 0)
                    == s.commits[m] + (if Reports(node, v, m) then 1 else 0))
  }

  /** m is the commitment that the node sends to its parent. */
  ghost predicate Reports(node: Node, v: nat, m: (nat, nat, Point)) {
    node.commitment.Some? && node.parent.Some? && m == (v, node.parent.value, node.commitment.value)
  }

  /** OnAnswer field by field, for a node that is not finished. */
  ghost predicate AnswerShape(cfg: Config, s: State, s': State, w: nat, v: nat, com: Option<Point>) {
    && |s.nodes| == |s'.nodes| == cfg.N() && v < cfg.N() && s'.depth == s.depth && s'.announces == s.announces
    && s'.answered == s.answered + {(v, w)}
    && (forall x: nat :: x < cfg.N() && x != v ==> s'.nodes[x] == s.nodes[x])
    && HeardShape(cfg, s.nodes[v], s'.nodes[v], w, v, com) && FlightShape(s, s', s'.nodes[v], w, v, com)
  }

  lemma HasShape(cfg: Config, s: State, w: nat, v: nat, com: Option<Point>)
    requires |s.nodes| == cfg.N() && v < cfg.N() && w < cfg.N() && AnswerComing(s, w, v, com)
    requires s.nodes[v].commitment == None
    ensures AnswerShape(cfg, s, OnAnswer(cfg, s, w, v, com), w, v, com)
  {
    hide HeardShape, FlightShape;
    HasHeardShape(cfg, s.nodes[v], w, v, com);
    HasFlightShape(cfg, s, w, v, com);
  }

  lemma HasHeardShape(cfg: Config, node: Node, w: nat, v: nat, com: Option<Point>)
    requires v < cfg.N() && node.commitment == None
    ensures HeardShape(cfg, node, Hears(cfg, v, node, if com.Some? then Some((w, com.value)) else None), w, v, com)
  {
  }

  lemma HasFlightShape(cfg: Config, s: State, w: nat, v: nat, com: Option<Point>)
    requires |s.nodes| == cfg.N() && v < cfg.N() && w < cfg.N() && AnswerComing(s, w, v, com)
    requires s.nodes[v].commitment == None
    ensures FlightShape(s, OnAnswer(cfg, s, w, v, com), OnAnswer(cfg, s, w, v, com).nodes[v], w, v, com)
  {
    hide OnAnswer;
    BreaksAfter(cfg, s, w, v, com);
    CommitsAfter(cfg, s, w, v, com);
  }

  lemma BreaksAfter(cfg: Config, s: State, w: nat, v: nat, com: Option<Point>)
    requires |s.nodes| == cfg.N() && v < cfg.N() && w < cfg.N() && AnswerComing(s, w, v, com)
    ensures forall m :: OnAnswer(cfg, s, w, v, com).breaks[m] + (if com.None? && m == (w, v) then 1 else 0)
              == s.breaks[m]
  {
    hide Hears, Report;
  }

  lemma CommitsAfter(cfg: Config, s: State, w: nat, v: nat, com: Option<Point>)
    requires |s.nodes| == cfg.N() && v < cfg.N() && w < cfg.N() && AnswerComing(s, w, v, com)
    requires s.nodes[v].commitment == None
    ensures var s' := OnAnswer(cfg, s, w, v, com);
            forall m :: s'.commits[m] + (if com.Some? && m == (w, v, com.value) then 1 else 0)
                        == s.commits[m] + (if Reports(s'.nodes[v], v, m) then 1 else 0)
  {
    hide Hears;
    var s' := OnAnswer(cfg, s, w, v, com);
    var report := Report(s'.nodes[v], v);
    assert s'.commits == (if com.Some? then s.commits - multiset{(w, v, com.value)} else s.commits) + report;
    assert forall m :: report[m] == if Reports(s'.nodes[v], v, m) then 1 else 0;
    hide OnAnswer, Report, Reports;
  }

  /** The situation of an answer step, as the lemmas below need it. */
  ghost predicate Answering(cfg: Config, s: State, s': State, w: nat, v: nat, com: Option<Point>) {
    && Inv(cfg, s) && v < cfg.N() && w < cfg.N() && AnswerComing(s, w, v, com) && AnswerShape(cfg, s, s', w, v, com)
  }

  lemma AnswerEdges(cfg: Config, s: State, s': State, w: nat, v: nat, com: Option<Point>, x: nat, y: nat)
    requires Answering(cfg, s, s', w, v, com) && x < cfg.N() && y in cfg.adj[x]
    ensures EdgeInv(cfg, s', x, y)
  {
    hide Inv, EdgeInv, HeardShape, FlightShape, Sent, Adopted, AnsweredTo;
    AnswerFacts(cfg, s, w, v, com);
    EdgeAt(cfg, s, x, y);
    EdgeStays(cfg, s, s', w, v, com, x, y);
  }

  lemma EdgeStays(cfg: Config, s: State, s': State, w: nat, v: nat, com: Option<Point>, x: nat, y: nat)
    requires EdgeInv(cfg, s, x, y) && x != y && AnswerShape(cfg, s, s', w, v, com) && w < cfg.N() && v != w
    requires Sent(cfg, s, v, w) && (v, w) !in s.answered && !s.nodes[v].Finished() && s.nodes[w].received
    requires com.Some? ==> Adopted(s, v, w) && s.nodes[w].commitment == com && s.commits[(w, v, com.value)] == 1
    requires com.None? ==> !Adopted(s, v, w) && s.breaks[(w, v)] == 1
    requires forall m :: m in s.commits ==> m.0 != v
    ensures EdgeInv(cfg, s', x, y)
  {
    if y == v {
      assert CommitsInFlight(s, v, x) == 0;
    }
  }

  lemma AnswerNet(cfg: Config, s: State, s': State, w: nat, v: nat, com: Option<Point>)
    requires Answering(cfg, s, s', w, v, com)
    ensures NetInv(cfg, s')
  {
    hide Inv, NetInv, HeardShape, FlightShape, PhaseInv, ChildrenInv, Sent, Adopted, AnsweredTo;
    AnswerFacts(cfg, s, w, v, com);
    InvAt(cfg, s, v);
    NetStays(cfg, s, s', w, v, com);
  }

  lemma NetStays(cfg: Config, s: State, s': State, w: nat, v: nat, com: Option<Point>)
    requires NetInv(cfg, s) && AnswerShape(cfg, s, s', w, v, com) && w in cfg.adj[v]
    requires s.nodes[v].parent.Some? ==> s.nodes[v].parent.value < cfg.N()
    requires forall m :: m in s.commits ==> m.0 != v
    ensures NetInv(cfg, s')
  {
    forall m | m in s'.commits
      ensures m.0 < cfg.N() && m.1 < cfg.N() && s'.nodes[m.0].parent == Some(m.1)
      ensures s'.nodes[m.0].commitment == Some(m.2)
    {
      assert m in s.commits || Reports(s'.nodes[v], v, m);
    }
    forall m | m in s'.breaks ensures m.1 < cfg.N() && m.0 in cfg.adj[m.1] {
      assert m in s.breaks;
    }
  }

  lemma AnswerOthers(cfg: Config, s: State, s': State, w: nat, v: nat, com: Option<Point>, x: nat)
    requires Answering(cfg, s, s', w, v, com) && x < cfg.N() && x != v
    ensures NodeInv(cfg, s', x)
  {
    hide Inv, NetInv, FlightShape, Sent;
    AnswerFacts(cfg, s, w, v, com);
    InvAt(cfg, s, x);
    assert AnsweredTo(s', x) == AnsweredTo(s, x);
    hide AnsweredTo;
    assert forall y: nat :: Adopted(s', x, y) <==> Adopted(s, x, y);
    assert forall y: nat :: (x, y) in s'.answered <==> (x, y) in s.answered;
  }

  lemma AnswerSelf(cfg: Config, s: State, s': State, w: nat, v: nat, com: Option<Point>)
    requires Answering(cfg, s, s', w, v, com)
    ensures NodeInv(cfg, s', v)
  {
    hide Inv, NetInv, ChildrenInv, PhaseInv, FlightShape, Sent, Adopted;
    AnswerFacts(cfg, s, w, v, com);
    InvAt(cfg, s, v);
    AnswerChildren(cfg, s, s', w, v, com);
    AnswerPhase(cfg, s, s', w, v, com);
    assert AnsweredTo(s', v) == AnsweredTo(s, v) + {w};
  }

  lemma AnswerPhase(cfg: Config, s: State, s': State, w: nat, v: nat, com: Option<Point>)
    requires Answering(cfg, s, s', w, v, com)
    ensures PhaseInv(cfg, v, s'.nodes[v])
  {
    hide Inv, NetInv, ChildrenInv, ParentInv, FlightShape, AnsweredTo;
    AnswerFacts(cfg, s, w, v, com);
    InvAt(cfg, s, v);
  }

  lemma AnswerChildren(cfg: Config, s: State, s': State, w: nat, v: nat, com: Option<Point>)
    requires Answering(cfg, s, s', w, v, com)
    ensures ChildrenInv(cfg, s', v)
  {
    hide Inv, NetInv, ChildrenInv, HeardShape, FlightShape, PhaseInv, ParentInv, Sent, AnsweredTo;
    AnswerFacts(cfg, s, w, v, com);
    InvAt(cfg, s, v);
    NotOwnChild(cfg, s, v);
    ListGrows(cfg, s, s', w, v, com);
  }

  /** An adopter's answer puts it at the end of the list, a LoopBreak changes nothing. */
  lemma ListGrows(cfg: Config, s: State, s': State, w: nat, v: nat, com: Option<Point>)
    requires ChildrenInv(cfg, s, v) && AnswerShape(cfg, s, s', w, v, com) && w < cfg.N() && w != v
    requires (v, w) !in s.answered
    requires com.Some? <==> Adopted(s, v, w)
    requires (com.Some? ==> s.nodes[w].commitment == com) && v !in s.nodes[v].dynamicChildren
    ensures ChildrenInv(cfg, s', v)
  {
    hide FlightShape;
    var kids, kids' := s.nodes[v].dynamicChildren, s'.nodes[v].dynamicChildren;
    forall y: nat ensures y in kids' <==> (v, y) in s'.answered && Adopted(s', v, y) {
      assert y in kids <==> (v, y) in s.answered && Adopted(s, v, y);
      assert Adopted(s', v, y) <==> Adopted(s, v, y);
    }
    forall i | 0 <= i < |kids'|
      ensures kids'[i] < cfg.N() && s'.nodes[kids'[i]].commitment == Some(s'.nodes[v].tempPrepareCommit[i])
    {
      if i < |kids| {
        assert kids[i] in kids;
      }
    }
  }

  lemma AnswerKeeps(cfg: Config, s: State, w: nat, v: nat, com: Option<Point>)
    requires Inv(cfg, s) && v < cfg.N() && w < cfg.N() && AnswerComing(s, w, v, com)
    ensures Inv(cfg, OnAnswer(cfg, s, w, v, com))
  {
    AnswerFacts(cfg, s, w, v, com);
    HasShape(cfg, s, w, v, com);
    var s' := OnAnswer(cfg, s, w, v, com);
    hide EdgeInv, NodeInv, NetInv, AnswerComing, OnAnswer;
    AnswerNet(cfg, s, s', w, v, com);
    forall x: nat, y: nat | x < cfg.N() && y in cfg.adj[x] ensures EdgeInv(cfg, s', x, y) {
      AnswerEdges(cfg, s, s', w, v, com, x, y);
    }
    forall x: nat | x < cfg.N() ensures NodeInv(cfg, s', x) {
      if x == v { AnswerSelf(cfg, s, s', w, v, com); } else { AnswerOthers(cfg, s, s', w, v, com, x); }
    }
  }
}
