/**
 The flood of tree_experiment: announcements go down the locality graph, every node that gets one
 replies to the root once, dead nodes reply but do not forward, and the root counts.
 */
module Flood {
  import opened Sets

  /** children is the Children list of every graph node; alive does not matter at the root. */
  datatype Config = Config(children: seq<set<nat>>, root: nat, alive: set<nat>)
  {
    function N(): nat { |children| }

    ghost predicate Ok() {
      && root < N()
      && forall v: nat, w: nat {:trigger w in children[v]} :: v < N() && w in children[v] ==> w < N()
    }

    predicate Forwards(v: nat) { v == root || v in alive }
  }

  datatype State = State(
    msgReceived: set<nat>,
    announces: multiset<(nat, nat)>,
    replies: multiset<nat>,          // on their way to the root, by sender
    count: nat,                      // Count at the root, which starts at 1
    emitted: seq<nat>)               // what has been written to TotalCount

  function Sends(cfg: Config, v: nat): set<(nat, nat)>
    requires v < cfg.N()
  {
    Pairs(v, cfg.children[v])
  }

  /** Start at the root; a root without children reports itself at once. */
  function Start(cfg: Config): State
    requires cfg.root < cfg.N()
  {
    State({cfg.root}, multiset(Sends(cfg, cfg.root)), multiset{}, 1, if cfg.children[cfg.root] == {} then [1] else [])
  }

  /** HandleAnnounce at w. */
  function OnAnnounce(cfg: Config, s: State, v: nat, w: nat): State
    requires w < cfg.N()
  {
    var rest := s.(announces := s.announces - multiset{(v, w)});
    if w in s.msgReceived then rest
    else rest.(msgReceived := s.msgReceived + {w}, replies := s.replies + multiset{w},
               announces := rest.announces + if w in cfg.alive then multiset(Sends(cfg, w)) else multiset{})
  }

  /** HandleReply at the root. */
  function OnReply(cfg: Config, s: State, w: nat): State {
    State(s.msgReceived, s.announces, s.replies - multiset{w}, s.count + 1,
          if s.count + 1 == cfg.N() then s.emitted + [s.count + 1] else s.emitted)
  }

  ghost predicate Next(cfg: Config, s: State, s': State) {
    || (exists v: nat, w: nat :: w < cfg.N() && (v, w) in s.announces && s' == OnAnnounce(cfg, s, v, w))
    || (exists w: nat :: w in s.replies && s' == OnReply(cfg, s, w))
  }

  ghost predicate IsRun(cfg: Config, run: seq<State>) {
    && cfg.Ok() && run != [] && run[0] == Start(cfg)
    && forall i :: 0 <= i < |run| - 1 ==> Next(cfg, run[i], run[i + 1])
  }

  /** p leads from the root to v, and every node on it before v forwards. */
  ghost predicate AlivePath(cfg: Config, p: seq<nat>, v: nat) {
    && |p| > 0 && p[0] == cfg.root && p[|p| - 1] == v
    && (forall i :: 0 <= i < |p| ==> p[i] < cfg.N())
    && (forall i :: 0 <= i < |p| - 1 ==> Hop(cfg, p, i))
  }

  ghost predicate Hop(cfg: Config, p: seq<nat>, i: nat)
    requires i + 1 < |p|
  {
    p[i] < cfg.N() && cfg.Forwards(p[i]) && p[i + 1] in cfg.children[p[i]]
  }

  ghost predicate Covered(cfg: Config, v: nat) {
    exists p :: AlivePath(cfg, p, v)
  }

  /** Everyone who has the message is covered. */
  ghost predicate ReceivedInv(cfg: Config, s: State) {
    && cfg.root in s.msgReceived && s.msgReceived <= Below(cfg.N())
    && forall v: nat :: v in s.msgReceived ==> Covered(cfg, v)
  }

  /** A forwarder's announcements are in flight or delivered. */
  ghost predicate NetInv(cfg: Config, s: State) {
    && (forall m :: m in s.announces ==>
        m.0 in s.msgReceived && m.0 < cfg.N() && cfg.Forwards(m.0) && m.1 in cfg.children[m.0])
    && (forall v: nat, w: nat {:trigger w in cfg.children[v]} ::
        v in s.msgReceived && v < cfg.N() && cfg.Forwards(v) && w in cfg.children[v] ==>
          w in s.msgReceived || (v, w) in s.announces)
  }

  /** Each receiver has exactly one reply, on its way or counted. */
  ghost predicate ReplyInv(cfg: Config, s: State) {
    && (forall w :: w in s.replies ==> w in s.msgReceived && w != cfg.root && s.replies[w] == 1)
    && s.count + |s.replies| == |s.msgReceived|
    && cfg.root < cfg.N()
    && s.emitted == (if cfg.children[cfg.root] == {} then [1] else [])
        + (if s.count >= cfg.N() && cfg.N() > 1 then [cfg.N()] else [])
  }

  ghost predicate Inv(cfg: Config, s: State) {
    cfg.Ok() && ReceivedInv(cfg, s) && NetInv(cfg, s) && ReplyInv(cfg, s)
  }

  lemma Extend(cfg: Config, v: nat, w: nat)
    requires cfg.Ok() && v < cfg.N() && Covered(cfg, v) && cfg.Forwards(v) && w in cfg.children[v]
    ensures Covered(cfg, w)
  {
    var p :| AlivePath(cfg, p, v);
    var q := p + [w];
    forall i | 0 <= i < |q| - 1 ensures Hop(cfg, q, i) {
      if i < |p| - 1 { assert Hop(cfg, p, i); }
    }
    assert AlivePath(cfg, q, w);
  }

  lemma StartInv(cfg: Config)
    requires cfg.Ok()
    ensures Inv(cfg, Start(cfg))
  {
    hide Covered, NetInv;
    StartCovered(cfg);
    StartNet(cfg);
    SubsetCard({cfg.root}, Below(cfg.N()));
  }

  lemma StartNet(cfg: Config)
    requires cfg.Ok()
    ensures NetInv(cfg, Start(cfg))
  {
    var s := Start(cfg);
    assert forall w: nat :: w in cfg.children[cfg.root] ==> (cfg.root, w) in Sends(cfg, cfg.root);
    assert forall m :: m in s.announces ==> m in Sends(cfg, cfg.root);
  }

  lemma StartCovered(cfg: Config)
    requires cfg.Ok()
    ensures Covered(cfg, cfg.root)
  {
    assert AlivePath(cfg, [cfg.root], cfg.root);
  }

  lemma AnnounceNet(cfg: Config, s: State, v: nat, w: nat)
    requires cfg.Ok() && NetInv(cfg, s) && w < cfg.N() && cfg.root in s.msgReceived
    ensures NetInv(cfg, OnAnnounce(cfg, s, v, w))
  {
    var s' := OnAnnounce(cfg, s, v, w);
    forall m | m in s'.announces
      ensures m.0 in s'.msgReceived && m.0 < cfg.N() && cfg.Forwards(m.0) && m.1 in cfg.children[m.0]
    {
      assert m in s.announces || (w in cfg.alive && w !in s.msgReceived && m in Sends(cfg, w));
    }
    forall x: nat, y: nat | x in s'.msgReceived && x < cfg.N() && cfg.Forwards(x) && y in cfg.children[x]
      ensures y in s'.msgReceived || (x, y) in s'.announces
    {
      if x in s.msgReceived {
        assert y in s.msgReceived || (x, y) in s.announces;
      } else {
        assert x == w && (x, y) in Sends(cfg, w);
      }
    }
  }

  lemma AnnounceReply(cfg: Config, s: State, v: nat, w: nat)
    requires ReplyInv(cfg, s) && w < cfg.N() && cfg.root in s.msgReceived
    ensures ReplyInv(cfg, OnAnnounce(cfg, s, v, w))
  {
    var s' := OnAnnounce(cfg, s, v, w);
    forall x | x in s'.replies ensures x in s'.msgReceived && x != cfg.root && s'.replies[x] == 1 {
      assert x in s.replies || x == w;
    }
  }

  lemma AnnounceKeeps(cfg: Config, s: State, v: nat, w: nat)
    requires Inv(cfg, s) && w < cfg.N() && (v, w) in s.announces
    ensures Inv(cfg, OnAnnounce(cfg, s, v, w))
  {
    Extend(cfg, v, w);
    AnnounceNet(cfg, s, v, w);
    AnnounceReply(cfg, s, v, w);
    hide NetInv, ReplyInv, Covered;
  }

  lemma CountsReply(cfg: Config, s: State, w: nat)
    requires ReplyInv(cfg, s) && w in s.replies && s.msgReceived <= Below(cfg.N())
    ensures ReplyInv(cfg, OnReply(cfg, s, w))
  {
    SubsetCard(s.msgReceived, Below(cfg.N()));
    var s' := OnReply(cfg, s, w);
    assert |s'.replies| == |s.replies| - 1;
    assert s.count < cfg.N();
    forall x | x in s'.replies ensures x in s.msgReceived && x != cfg.root && s'.replies[x] == 1 {
      assert x in s.replies;
    }
  }

  lemma ReplyKeeps(cfg: Config, s: State, w: nat)
    requires Inv(cfg, s) && w in s.replies
    ensures Inv(cfg, OnReply(cfg, s, w))
  {
    CountsReply(cfg, s, w);
    hide ReplyInv, Covered;
  }

  lemma NextInv(cfg: Config, s: State, s': State)
    requires Inv(cfg, s) && Next(cfg, s, s')
    ensures Inv(cfg, s')
  {
    hide Inv, OnAnnounce, OnReply;
    if v: nat, w: nat :| w < cfg.N() && (v, w) in s.announces && s' == OnAnnounce(cfg, s, v, w) {
      AnnounceKeeps(cfg, s, v, w);
    } else {
      var w: nat :| w in s.replies && s' == OnReply(cfg, s, w);
      ReplyKeeps(cfg, s, w);
    }
  }

  lemma {:induction false} RunInv(cfg: Config, run: seq<State>, i: nat)
    requires IsRun(cfg, run) && i < |run|
    ensures Inv(cfg, run[i])
  {
    hide Inv, Next;
    if i == 0 {
      StartInv(cfg);
    } else {
      RunInv(cfg, run, i - 1);
      NextInv(cfg, run[i - 1], run[i]);
    }
  }

  lemma {:induction false} PathReceived(cfg: Config, s: State, p: seq<nat>, v: nat)
    requires Inv(cfg, s) && s.announces == multiset{} && AlivePath(cfg, p, v)
    ensures v in s.msgReceived
    decreases |p|
  {
    if |p| > 1 {
      var q, u := p[..|p| - 1], p[|p| - 2];
      forall i | 0 <= i < |q| - 1 ensures Hop(cfg, q, i) { assert Hop(cfg, p, i); }
      PathReceived(cfg, s, q, u);
      assert Hop(cfg, p, |p| - 2);
    }
  }

  /** Flood coverage: when nothing is in flight, the nodes with the message are exactly those the
      root reaches over forwarding nodes, and the root has counted each of them once. */
  lemma Coverage(cfg: Config, run: seq<State>, i: nat)
    requires IsRun(cfg, run) && i < |run| && run[i].announces == multiset{}
    ensures forall v: nat :: v in run[i].msgReceived <==> Covered(cfg, v)
    ensures run[i].replies == multiset{} ==> run[i].count == |run[i].msgReceived|
  {
    RunInv(cfg, run, i);
    forall v: nat | Covered(cfg, v) ensures v in run[i].msgReceived {
      var p :| AlivePath(cfg, p, v);
      PathReceived(cfg, run[i], p, v);
    }
  }

  /** In every state: the total of the whole roster is emitted at most once, and only when every
      node has the message; a childless root has emitted 1 at the start.  At rest a root with children
      has emitted it exactly if every node is covered. */
  lemma EmitsOnce(cfg: Config, run: seq<State>, i: nat)
    requires IsRun(cfg, run) && i < |run|
    ensures cfg.children[cfg.root] != {} ==> run[i].emitted == [] || run[i].emitted == [cfg.N()]
    ensures cfg.children[cfg.root] == {} ==> run[i].emitted == [1]
    ensures run[i].emitted != [] && cfg.children[cfg.root] != {} ==> run[i].msgReceived == Below(cfg.N())
    ensures Quiet(run[i]) && cfg.children[cfg.root] != {} ==>
              (run[i].emitted == [cfg.N()] <==> cfg.N() > 1 && forall v: nat :: v < cfg.N() ==> Covered(cfg, v))
  {
    hide Covered;
    RunInv(cfg, run, i);
    var s := run[i];
    SubsetCard(s.msgReceived, Below(cfg.N()));
    if cfg.children[cfg.root] == {} {
      OnlyRoot(cfg, run);
    } else if Quiet(s) {
      Coverage(cfg, run, i);
      if forall v: nat :: v < cfg.N() ==> Covered(cfg, v) {
        assert s.msgReceived == Below(cfg.N());
      }
    }
  }

  /** Nothing is in flight. */
  ghost predicate Quiet(s: State) {
    s.announces == multiset{} && s.replies == multiset{}
  }

  ghost predicate CanGoOn(cfg: Config, s: State) {
    exists s' :: Next(cfg, s, s')
  }

  /** A run can go on exactly while something is in flight. */
  lemma StopsWhenQuiet(cfg: Config, run: seq<State>)
    requires IsRun(cfg, run)
    ensures CanGoOn(cfg, run[|run| - 1]) <==> !Quiet(run[|run| - 1])
  {
    var s := run[|run| - 1];
    RunInv(cfg, run, |run| - 1);
    if m :| m in s.announces {
      assert Next(cfg, s, OnAnnounce(cfg, s, m.0, m.1));
    } else if w :| w in s.replies {
      assert Next(cfg, s, OnReply(cfg, s, w));
    }
  }

  // ---------------------------------------------------------------- length of a run

  /** How many announcements each node has sent. */
  ghost function SentBy(cfg: Config, s: State): seq<nat> {
    seq(cfg.N(), v requires 0 <= v < cfg.N() => if v in s.msgReceived && cfg.Forwards(v) then |cfg.children[v]| else 0)
  }

  ghost function Fans(cfg: Config): seq<nat> {
    seq(cfg.N(), v requires 0 <= v < cfg.N() => |cfg.children[v]|)
  }

  /** After i deliveries: what has been sent has been delivered or is in flight. */
  ghost predicate Balance(cfg: Config, s: State, i: nat) {
    i + |s.announces| + |s.replies| + 1 == Total(SentBy(cfg, s)) + |s.msgReceived|
  }

  lemma StartBalance(cfg: Config)
    requires cfg.Ok()
    ensures Balance(cfg, Start(cfg), 0)
  {
    var zeros: seq<nat> := seq(cfg.N(), _ => 0);
    TotalConst(zeros, 0);
    TotalUpdate(zeros, cfg.root, |cfg.children[cfg.root]|);
    assert SentBy(cfg, Start(cfg)) == zeros[cfg.root := |cfg.children[cfg.root]|];
    PairsCard(cfg.root, cfg.children[cfg.root]);
  }

  lemma ReceiverSends(cfg: Config, s: State, s': State, w: nat)
    requires w < cfg.N() && w !in s.msgReceived && w != cfg.root && s'.msgReceived == s.msgReceived + {w}
    ensures Total(SentBy(cfg, s')) == Total(SentBy(cfg, s)) + if w in cfg.alive then |Sends(cfg, w)| else 0
  {
    var k := if w in cfg.alive then |cfg.children[w]| else 0;
    TotalUpdate(SentBy(cfg, s), w, k);
    assert SentBy(cfg, s') == SentBy(cfg, s)[w := k];
    PairsCard(w, cfg.children[w]);
  }

  lemma AnnounceBalance(cfg: Config, s: State, i: nat, v: nat, w: nat)
    requires Inv(cfg, s) && Balance(cfg, s, i) && w < cfg.N() && (v, w) in s.announces
    ensures Balance(cfg, OnAnnounce(cfg, s, v, w), i + 1)
  {
    assert cfg.root in s.msgReceived;
    hide Inv, Sends, Total, SentBy;
    if w in s.msgReceived {
      SameSent(cfg, s, OnAnnounce(cfg, s, v, w));
    } else {
      ReceiverSends(cfg, s, OnAnnounce(cfg, s, v, w), w);
    }
  }

  lemma SameSent(cfg: Config, s: State, s': State)
    requires s'.msgReceived == s.msgReceived
    ensures SentBy(cfg, s') == SentBy(cfg, s)
  {
  }

  lemma NextBalance(cfg: Config, s: State, s': State, i: nat)
    requires Inv(cfg, s) && Balance(cfg, s, i) && Next(cfg, s, s')
    ensures Balance(cfg, s', i + 1)
  {
    hide Inv, OnAnnounce, Total, SentBy;
    if v: nat, w: nat :| w < cfg.N() && (v, w) in s.announces && s' == OnAnnounce(cfg, s, v, w) {
      AnnounceBalance(cfg, s, i, v, w);
    } else {
      SameSent(cfg, s, s');
    }
  }

  lemma {:induction false} RunBalance(cfg: Config, run: seq<State>, i: nat)
    requires IsRun(cfg, run) && i < |run|
    ensures Balance(cfg, run[i], i)
  {
    hide Inv, Next, Balance;
    if i == 0 {
      StartBalance(cfg);
    } else {
      RunBalance(cfg, run, i - 1);
      RunInv(cfg, run, i - 1);
      NextBalance(cfg, run[i - 1], run[i], i - 1);
    }
  }

  /** No run has more deliveries than one announcement per child list entry and one reply per node
      but the root. */
  lemma RunsAreShort(cfg: Config, run: seq<State>)
    requires IsRun(cfg, run)
    ensures |run| <= Total(Fans(cfg)) + cfg.N()
  {
    var s := run[|run| - 1];
    RunBalance(cfg, run, |run| - 1);
    RunInv(cfg, run, |run| - 1);
    SubsetCard(s.msgReceived, Below(cfg.N()));
    TotalMono(SentBy(cfg, s), Fans(cfg));
  }

  lemma OnlyRoot(cfg: Config, run: seq<State>)
    requires IsRun(cfg, run) && cfg.children[cfg.root] == {}
    ensures |run| == 1
  {
    assert Sends(cfg, cfg.root) == {};
    if |run| > 1 {
      NoStep(cfg, run[0], run[1]);
    }
  }

  lemma NoStep(cfg: Config, s: State, s': State)
    requires s.announces == multiset{} && s.replies == multiset{}
    ensures !Next(cfg, s, s')
  {
  }

  /** The handlers of one node, as the step functions above use them. */
  class LocalityPresProtocol {
    const cfg: Config
    const me: nat
    var msgReceived: bool
    var count: nat
    var totalCount: seq<nat>

    constructor (cfg: Config, me: nat)
      ensures this.cfg == cfg && this.me == me && !msgReceived && count == 1 && totalCount == []
    {
      this.cfg, this.me := cfg, me;
      msgReceived, count, totalCount := false, 1, [];
    }

    /** This node's part of a system state. */
    ghost predicate Reflects(s: State)
      reads this
    {
      (msgReceived <==> me in s.msgReceived) && (me == cfg.root ==> count == s.count && totalCount == s.emitted)
    }

    method StartFlood() returns (sent: set<(nat, nat)>)
      requires me == cfg.root && me < cfg.N() && !msgReceived && count == 1 && totalCount == []
      modifies this
      ensures Reflects(Start(cfg)) && multiset(sent) == Start(cfg).announces
    {
      msgReceived := true;
      if cfg.children[me] == {} {
        totalCount := totalCount + [count];
      }
      sent := Sends(cfg, me);
    }

    method HandleAnnounce(from: nat, ghost s: State) returns (sent: set<(nat, nat)>, reply: bool)
      requires me < cfg.N() && Reflects(s) && (from, me) in s.announces
      modifies this
      ensures Reflects(OnAnnounce(cfg, s, from, me))
      ensures OnAnnounce(cfg, s, from, me).announces == s.announces - multiset{(from, me)} + multiset(sent)
      ensures OnAnnounce(cfg, s, from, me).replies == s.replies + if reply then multiset{me} else multiset{}
    {
      sent, reply := {}, false;
      if msgReceived {
        return;
      }
      msgReceived := true;
      reply := true;
      if me !in cfg.alive {
        return;
      }
      sent := Sends(cfg, me);
    }

    method HandleReply(from: nat, ghost s: State)
      requires me == cfg.root && Reflects(s) && from in s.replies
      modifies this
      ensures Reflects(OnReply(cfg, s, from))
    {
      count := count + 1;
      if count == cfg.N() {
        totalCount := totalCount + [count];
      }
    }
  }
}
