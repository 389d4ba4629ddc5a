/**
 The handlers of one BFTCoSi node during the prepare round, proved against the step functions of
 the echo model.
 */
module EchoNode {
  import opened Locality
  import opened Group
  import opened Echo

  class ProtocolNode {
    const cfg: Config
    const me: nat
    const graphParent: Option<nat>   // Parent of this node's GraphTreeNode, a neighbour on a symmetric graph
    var received: bool
    var parent: Option<nat>
    var nrPrepareCommit: nat
    var dynamicChildren: seq<nat>
    var tempPrepareCommit: seq<Point>
    var commitment: Option<Point>

    function View(): Node
      reads this
    {
      Node(received, parent, nrPrepareCommit, dynamicChildren, tempPrepareCommit, commitment)
    }

    ghost predicate Placed()
    {
      me < cfg.N() && (graphParent.Some? ==> graphParent.value in cfg.adj[me])
    }

    constructor (cfg: Config, me: nat, graphParent: Option<nat>)
      ensures this.cfg == cfg && this.me == me && this.graphParent == graphParent && View() == Silent()
    {
      this.cfg, this.me, this.graphParent := cfg, me, graphParent;
      received, parent, nrPrepareCommit, dynamicChildren, tempPrepareCommit, commitment := false, None, 0, [], [], None;
    }

    method IsLoopAndSet(sender: Option<nat>) returns (isLoop: bool)
      modifies this`received, this`parent
      ensures isLoop == old(received)
      ensures View() == if isLoop then old(View()) else old(View()).(received := true, parent := sender)
    {
      if received {
        return true;
      }
      parent := sender;
      received := true;
      return false;
    }

    /** handleCommitmentPrepare after its wait; the root keeps the commitment to itself. */
    method Complete() returns (report: multiset<(nat, nat, Point)>)
      modifies this`commitment
      ensures View() == Finish(cfg, me, old(View())) && report == Report(View(), me)
    {
      var c := cfg.combine(me, tempPrepareCommit);
      commitment := Some(c);
      report := if parent.Some? then multiset{(me, parent.value, c)} else multiset{};
    }

    /** DelayedSendToNeighborsExcParent */
    method NeighborsExcParent() returns (targets: set<nat>)
      requires me < cfg.N()
      ensures targets == cfg.adj[me] - (if parent.Some? then {parent.value} else {})
    {
      targets := {};
      var todo := cfg.adj[me];
      while todo != {}
        invariant todo <= cfg.adj[me]
        invariant targets == cfg.adj[me] - todo - (if parent.Some? then {parent.value} else {})
        decreases todo
      {
        var x :| x in todo;
        todo := todo - {x};
        if parent == Some(x) {
          continue;
        }
        targets := targets + {x};
      }
    }

    /** readAnnouncement: an announcement seen before is answered with LoopBreak; the first one is
        passed on, or reported at once by a node with a single neighbour. */
    method ReadAnnouncement(sender: Option<nat>)
      returns (loopBreak: bool, targets: set<nat>, report: multiset<(nat, nat, Point)>)
      requires Placed() && (!received ==> View() == Silent())
      modifies this
      ensures loopBreak == old(received)
      ensures loopBreak ==> View() == old(View()) && targets == {} && report == multiset{}
      ensures !loopBreak ==> View() == Joins(cfg, me, old(View()), sender)
      ensures !loopBreak ==> targets == Targets(cfg, me, sender) && report == Report(View(), me)
    {
      targets, report := {}, multiset{};
      loopBreak := IsLoopAndSet(sender);
      if loopBreak {
        return;
      }
      if |cfg.adj[me]| == 1 && parent.Some? {
        report := Complete();
        return;
      }
      targets := NeighborsExcParent();
    }

    /** updateCommitPrepAndCompare */
    method UpdateCommitPrepAndCompare(correction: int, com: Option<(nat, Point)>) returns (done: bool)
      requires Placed()
      modifies this`nrPrepareCommit, this`tempPrepareCommit, this`dynamicChildren
      ensures nrPrepareCommit == old(nrPrepareCommit) + 1
      ensures tempPrepareCommit == if com.Some? then old(tempPrepareCommit) + [com.value.1] else old(tempPrepareCommit)
      ensures dynamicChildren == if com.Some? then old(dynamicChildren) + [com.value.0] else old(dynamicChildren)
      ensures done <==> nrPrepareCommit == |cfg.adj[me]| + correction
    {
      nrPrepareCommit := nrPrepareCommit + 1;
      if com.Some? {
        tempPrepareCommit := tempPrepareCommit + [com.value.1];
        dynamicChildren := dynamicChildren + [com.value.0];
      }
      var nrNeighbors := |cfg.adj[me]|;
      if graphParent.Some? && graphParent.value !in cfg.adj[me] {
        nrNeighbors := nrNeighbors + 1;
      }
      done := nrPrepareCommit == nrNeighbors + correction;
    }

    /** One message of readCommitChan in the prepare round: a commitment, or LoopBreak for None. */
    method ReadCommit(com: Option<(nat, Point)>) returns (report: multiset<(nat, nat, Point)>)
      requires Placed() && commitment == None
      modifies this
      ensures View() == Hears(cfg, me, old(View()), com) && report == Report(View(), me)
    {
      var done := UpdateCommitPrepAndCompare(if me == cfg.root then 0 else -1, com);
      report := multiset{};
      if done {
        report := Complete();
      }
    }
  }
}
