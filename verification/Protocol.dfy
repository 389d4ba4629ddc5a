/**
 The rounds put together: the tree the echo phase leaves behind, the prepare round over it, the commit
 round with its own nonces over the same tree, and the signature that comes out of a whole run.
 */
module Protocol {
  import opened Sets
  import opened Locality
  import opened Group
  import opened Aggregation
  import Echo
  import EchoTheorems
  import Rounds
  import opened Signing

  /** The dynamic tree: Parent and dynamicChildren of every node. */
  ghost function TreeOf(cfg: Echo.Config, s: Echo.State): Tree {
    Tree(cfg.root,
         seq(|s.nodes|, v requires 0 <= v < |s.nodes| => s.nodes[v].parent), s.depth,
         seq(|s.nodes|, v requires 0 <= v < |s.nodes| => s.nodes[v].dynamicChildren))
  }

  ghost function CommitmentsOf(s: Echo.State): seq<Point>
    requires forall v: nat :: v < |s.nodes| ==> s.nodes[v].commitment.Some?
  {
    seq(|s.nodes|, v requires 0 <= v < |s.nodes| => s.nodes[v].commitment.value)
  }

  /** The run leads to s, where the root has all its answers. */
  ghost predicate EchoDone(cfg: Echo.Config, run: seq<Echo.State>, s: Echo.State) {
    cfg.Ok() && Echo.IsRun(cfg, run) && s in run && EchoTheorems.RootDone(cfg, s)
  }

  lemma TreeIsOk(cfg: Echo.Config, run: seq<Echo.State>, s: Echo.State)
    requires EchoDone(cfg, run, s)
    ensures TreeOf(cfg, s).Ok() && TreeOf(cfg, s).N() == cfg.N() == |s.nodes|
    ensures forall v: nat :: v < cfg.N() ==> EchoTheorems.ChildrenExact(cfg, s, v)
  {
    var i :| 0 <= i < |run| && run[i] == s;
    EchoTheorems.EchoCorrect(cfg, run, i);
    hide EchoDone;
    ExactTree(cfg, s);
  }

  lemma ExactTree(cfg: Echo.Config, s: Echo.State)
    requires EchoTheorems.SpanningTree(cfg, s) && forall v: nat :: v < cfg.N() ==> EchoTheorems.ChildrenExact(cfg, s, v)
    ensures TreeOf(cfg, s).Ok() && TreeOf(cfg, s).N() == cfg.N() == |s.nodes|
  {
    var t := TreeOf(cfg, s);
    forall v: nat | v < cfg.N() ensures forall w: nat :: w in t.children[v] <==> w < cfg.N() && t.parent[w] == Some(v) {
      assert EchoTheorems.ChildrenExact(cfg, s, v);
    }
    forall v: nat, j: nat, k: nat | v < cfg.N() && j < k < |t.children[v]|
      ensures t.children[v][j] != t.children[v][k]
    {
      assert EchoTheorems.ChildrenExact(cfg, s, v);
    }
  }

  ghost function RootCommitment(cfg: Echo.Config, s: Echo.State): Option<Point> {
    if cfg.root < |s.nodes| then s.nodes[cfg.root].commitment else None
  }

  /** prepare.Commit adds the own commitment to those of the children. */
  ghost predicate CommitsAdd(g: Abelian, cfg: Echo.Config, own: seq<Point>) {
    |own| == cfg.N() && forall v: nat, kids :: v < cfg.N() ==> cfg.combine(v, kids) == g.add(own[v], g.Sum(kids))
  }

  /** The root's aggregate commitment of the prepare round is the sum over all nodes, each counted
      once; every other node's is the sum over its subtree. */
  lemma PrepareAggregates(g: Abelian, cfg: Echo.Config, own: seq<Point>, run: seq<Echo.State>, s: Echo.State, v: nat)
    requires g.Laws() && EchoDone(cfg, run, s) && CommitsAdd(g, cfg, own) && v < cfg.N()
    ensures TreeOf(cfg, s).Ok() && TreeOf(cfg, s).N() == cfg.N() == |s.nodes|
    ensures s.nodes[v].commitment == Some(SumIn(g, own, Subtree(TreeOf(cfg, s), v), cfg.N()))
    ensures RootCommitment(cfg, s) == Some(SumIn(g, own, Below(cfg.N()), cfg.N()))
  {
    TreeIsOk(cfg, run, s);
    var t := TreeOf(cfg, s);
    hide EchoDone;
    forall u: nat | u < cfg.N() ensures s.nodes[u].commitment.Some? { assert EchoTheorems.ChildrenExact(cfg, s, u); }
    var agg := CommitmentsOf(s);
    forall u: nat | u < cfg.N() ensures agg[u] == g.add(own[u], g.Sum(Reported(t, agg, u))) {
      assert EchoTheorems.ChildrenExact(cfg, s, u);
      assert Reported(t, agg, u) == s.nodes[u].tempPrepareCommit;
    }
    SubtreeSum(g, t, own, agg, v);
    RootSum(g, t, own, agg);
  }

  /** The own responses as group elements: response times base. */
  ghost function ResponsePoints(r: Round): seq<Point> {
    seq(r.N(), i requires 0 <= i < r.N() => r.suite.mul(r.Responses(r.Challenge())[i], r.suite.base))
  }

  lemma {:induction false} SharesMatch(r: Round, n: nat)
    requires r.suite.Laws() && r.offline == {} && n <= r.N()
    ensures SumIn(r.suite.g, Rounds.Shares(r.suite.g, ResponsePoints(r), r.refused), Below(r.N()), n)
            == r.suite.mul(SumInt(r.Responses(r.Challenge()), r.Honest(), n), r.suite.base)
  {
    if n == 0 {
      assert r.suite.MulZero(0);
    } else {
      SharesMatch(r, n - 1);
      OneShare(r.suite, SumInt(r.Responses(r.Challenge()), r.Honest(), n - 1), r.Responses(r.Challenge())[n - 1],
          n - 1 in r.refused);
    }
  }

  lemma OneShare(s: Suite, before: int, response: int, refuses: bool)
    requires s.Laws()
    ensures s.g.add(s.mul(before, s.base), if refuses then s.g.zero else s.mul(response, s.base))
            == s.mul(before + if refuses then 0 else response, s.base)
  {
    assert s.g.Unit(s.mul(before, s.base));
    assert s.MulAdds(before, response, s.base);
  }

  /** A pass and a run of it. */
  datatype PassRun = PassRun(pass: Rounds.Pass, run: seq<Rounds.State>)
  {
    /** The root has its value at the end of the run. */
    ghost predicate Done() {
      && Rounds.IsRun(pass, run) && |run[|run| - 1].members| == pass.N()
      && run[|run| - 1].members[pass.tree.root].passed.Some?
    }

    ghost function Value(): Point
      requires Done()
    {
      run[|run| - 1].members[pass.tree.root].passed.value
    }
  }

  /** Each node contributes its entry of own, unless it has refused. */
  ghost predicate Contributes(g: Abelian, p: Rounds.Pass, own: seq<Point>, refused: set<nat>) {
    |own| == p.N() &&
    forall u: nat, kids :: u < p.N() ==> p.combine(u, kids) == Rounds.Respond(g, own, refused, u, kids)
  }

  /** When a pass is done: after two deliveries per node but the root, if the root does not crash; then
      nobody has crashed.  Without a crash every run that cannot go on is done. */
  lemma PassCompletes(p: PassRun)
    requires Rounds.IsRun(p.pass, p.run)
    ensures p.Done() <==> |p.run| == 2 * (p.pass.N() - 1) + 1 && p.pass.tree.root !in p.pass.crashed
    ensures p.Done() ==> p.pass.NoCrash()
    ensures p.pass.NoCrash() ==> (p.Done() <==> !Rounds.CanGoOn(p.pass, p.run[|p.run| - 1]))
  {
    Rounds.PassLength(p.pass, p.run, |p.run| - 1);
    if p.Done() { Rounds.NobodyCrashed(p.pass, p.run, |p.run| - 1); }
    if p.pass.NoCrash() { Rounds.StopsOnlyWhenDone(p.pass, p.run); }
  }

  /** The responses of a round, passed up the tree: the root's is that of exactly those who signed. */
  lemma ResponsesAggregate(r: Round, p: PassRun)
    requires r.suite.Laws() && r.offline == {} && p.Done() && p.pass.N() == r.N()
    requires Contributes(r.suite.g, p.pass, ResponsePoints(r), r.refused)
    ensures p.Value() == r.suite.mul(r.Response(), r.suite.base)
  {
    Rounds.PassAggregates(r.suite.g, p.pass, ResponsePoints(r), r.refused, p.run, |p.run| - 1, p.pass.tree.root);
    SharesMatch(r, r.N());
  }

  /** The commitments of the commit round, passed up the tree: the root's is the sum over everyone. */
  lemma CommitmentsAggregate(r: Round, p: PassRun)
    requires r.suite.Laws() && p.Done() && p.pass.N() == r.N()
    requires Contributes(r.suite.g, p.pass, r.Nonces(), {})
    ensures p.Value() == r.Commit()
  {
    Rounds.PassAggregates(r.suite.g, p.pass, r.Nonces(), {}, p.run, |p.run| - 1, p.pass.tree.root);
    assert Rounds.Shares(r.suite.g, r.Nonces(), {}) == r.Nonces();
  }

  lemma RootExists(cfg: Echo.Config, run: seq<Echo.State>, s: Echo.State)
    requires EchoDone(cfg, run, s)
    ensures cfg.root < cfg.N()
  {
  }

  /** The prepare round: the echo run up to s has aggregated the nonces, the challenge has gone down
      its tree and the responses have come back.  Nobody can refuse in this round: a node whose
      verification fails is one of the crashed nodes of the pass. */
  ghost predicate PrepareDone(prep: Round, cfg: Echo.Config, run: seq<Echo.State>, s: Echo.State, responses: PassRun) {
    && prep.suite.Laws() && prep.refused == {} && prep.offline == {} && prep.N() == cfg.N()
    && EchoDone(cfg, run, s) && CommitsAdd(prep.suite.g, cfg, prep.Nonces())
    && responses.Done() && responses.pass.tree == TreeOf(cfg, s)
    && Contributes(prep.suite.g, responses.pass, ResponsePoints(prep), {})
  }

  /** What the root makes of a round: commitment and response; x stands for the response, a scalar. */
  ghost function Signed(commit: Point, x: int, msg: string): BFTSignature {
    BFTSignature(Sig(commit, x), Some(msg), [])
  }

  /** The prepare signature verifies: commitment of the echo run, response of the response pass, no
      exceptions. */
  lemma PrepareVerifies(prep: Round, cfg: Echo.Config, run: seq<Echo.State>, s: Echo.State, responses: PassRun, x: int)
    requires PrepareDone(prep, cfg, run, s, responses)
    requires prep.suite.mul(x, prep.suite.base) == responses.Value()
    ensures RootCommitment(cfg, s) == Some(prep.Commit())
    ensures Acceptable(prep.suite, prep.Publics(), Signed(prep.Commit(), x, prep.msg))
  {
    hide EchoDone, CommitsAdd, Contributes, ReducedEquation, Subtree, SumIn;
    RootExists(cfg, run, s);
    PrepareAggregates(prep.suite.g, cfg, prep.Nonces(), run, s, cfg.root);
    ResponsesAggregate(prep, responses);
    assert Lists(prep, [], {});
    AcceptsHonest(prep, [], x);
    assert prep.suite.Generates(x, prep.Response());
  }

  /** The two rounds use the same keys, their own nonces, and sign the digest and the message. */
  ghost predicate TwoRounds(prep: Round, comm: Round) {
    && prep.suite == comm.suite && prep.N() == comm.N() && comm.offline == {} && comm.refused <= Below(comm.N())
    && (forall v: nat :: v < comm.N() ==> prep.signers[v].secret == comm.signers[v].secret)
    && prep.msg == comm.suite.digest(comm.msg)
  }

  /** The commit round over the same tree: commitments first, responses after the challenge; those
      who refuse after the challenge leave their responses out. */
  ghost predicate CommitDone(comm: Round, t: Tree, commitments: PassRun, responses: PassRun) {
    && commitments.Done() && commitments.pass.tree == t
    && Contributes(comm.suite.g, commitments.pass, comm.Nonces(), {})
    && responses.Done() && responses.pass.tree == t
    && Contributes(comm.suite.g, responses.pass, ResponsePoints(comm), comm.refused)
  }

  /** Every node after the challenge of the commit round, which carries the prepare signature. */
  ghost function AfterChallenge(comm: Round, before: seq<CommitState>, prepare: BFTSignature): seq<CommitState> {
    seq(|before|, v requires 0 <= v < |before| => Challenged(comm.suite, comm.Publics(), before[v], prepare))
  }

  ghost function Refusers(states: seq<CommitState>): set<nat> {
    set v | v in Below(|states|) && states[v].signRefusal
  }

  /** The challenge of the commit round makes nobody refuse who has not refused before. */
  lemma ChallengeKeepsEveryone(prep: Round, comm: Round, before: seq<CommitState>, x: int)
    requires TwoRounds(prep, comm) && |before| == comm.N()
    requires Acceptable(prep.suite, prep.Publics(), Signed(prep.Commit(), x, prep.msg))
    ensures var after := AfterChallenge(comm, before, Signed(prep.Commit(), x, comm.msg));
            forall v: nat :: v < |before| ==> after[v] == CommitState(before[v].signRefusal, [])
  {
    var prepare := Signed(prep.Commit(), x, comm.msg);
    assert prep.Publics() == comm.Publics();
    assert Hashed(comm.suite, prepare) == Signed(prep.Commit(), x, prep.msg);
    hide Acceptable;
    forall v: nat | v < |before|
      ensures Challenged(comm.suite, comm.Publics(), before[v], prepare) == CommitState(before[v].signRefusal, [])
    {
      NobodyNewRefuses(comm.suite, comm.Publics(), before[v], prepare);
    }
  }

  /** The commit round hands out a valid signature exactly when the root has not refused and the
      responses of those who have cancel out. */
  lemma CommitVerifies(comm: Round, t: Tree, commitments: PassRun, responses: PassRun, y: int, root: CommitState)
    requires comm.suite.Laws() && comm.offline == {} && comm.refused <= Below(comm.N()) && t.N() == comm.N()
    requires CommitDone(comm, t, commitments, responses) && comm.suite.mul(y, comm.suite.base) == responses.Value()
    requires root == CommitState(t.root in comm.refused, [])
    ensures commitments.Value() == comm.Commit()
    ensures Acceptable(comm.suite, comm.Publics(),
              SignatureOf(comm.suite.g, root, Sig(comm.Commit(), y), comm.msg)) <==>
            RoundValid(comm, t.root)
  {
    hide Contributes, SumIn;
    CommitmentsAggregate(comm, commitments);
    ResponsesAggregate(comm, responses);
  }

  /** A whole run.  After any echo run and any prepare responses over its tree, every node has verified
      the message, the prepare signature verifies, and the challenge that carries it makes no node
      refuse that has not refused before.  After any two passes of the commit round over the same tree,
      what the root hands out verifies if nobody has refused; otherwise exactly if the root has not and
      the responses of the refusers, which no exception accounts for, add up to zero modulo the order. */
  lemma RunYieldsSignature(prep: Round, comm: Round, cfg: Echo.Config, run: seq<Echo.State>, s: Echo.State,
                           prepared: PassRun, commitments: PassRun, responses: PassRun,
                           before: seq<CommitState>, x: int, y: int)
    requires TwoRounds(prep, comm) && PrepareDone(prep, cfg, run, s, prepared)
    requires prep.suite.mul(x, prep.suite.base) == prepared.Value()
    requires |before| == comm.N()
    requires comm.refused == Refusers(AfterChallenge(comm, before, Signed(prep.Commit(), x, comm.msg)))
    requires CommitDone(comm, TreeOf(cfg, s), commitments, responses)
    requires comm.suite.mul(y, comm.suite.base) == responses.Value()
    ensures prepared.pass.NoCrash() && RootCommitment(cfg, s) == Some(prep.Commit())
    ensures Acceptable(prep.suite, prep.Publics(), Signed(prep.Commit(), x, prep.msg))
    ensures comm.refused == Refusers(before) && cfg.root < |before|
    ensures commitments.Value() == comm.Commit()
    ensures var after := AfterChallenge(comm, before, Signed(prep.Commit(), x, comm.msg));
            var out := SignatureOf(comm.suite.g, after[cfg.root], Sig(comm.Commit(), y), comm.msg);
            && (Refusers(before) == {} ==> Acceptable(comm.suite, comm.Publics(), out))
            && (Acceptable(comm.suite, comm.Publics(), out) <==>
                !before[cfg.root].signRefusal &&
                SumInt(comm.Responses(comm.Challenge()), Refusers(before), comm.N()) % comm.suite.order == 0)
  {
    hide EchoDone, CommitsAdd, CommitDone, Acceptable, RoundValid, SumInt, SumIn, Challenged;
    PassCompletes(prepared);
    PrepareVerifies(prep, cfg, run, s, prepared, x);
    ChallengeKeepsEveryone(prep, comm, before, x);
    RootExists(cfg, run, s);
    TreeIsOk(cfg, run, s);
    var after := AfterChallenge(comm, before, Signed(prep.Commit(), x, comm.msg));
    assert Refusers(after) == Refusers(before);
    CommitVerifies(comm, TreeOf(cfg, s), commitments, responses, y, after[cfg.root]);
    RoundValidIff(comm, cfg.root);
    if comm.refused == {} { NoRefuserIsValid(comm, cfg.root); }
  }
}
