/**
 The low-link depth-first search that RemoveLinks consults before it drops a link.
 The search clears the whole map of marked edges on every call, so only edges marked
 after the last node was discovered survive.
 */
module Bridges {
  import opened Sets
  import opened Walks
  import opened Discovery

  datatype Parent = NoParent | Parent(node: nat)

  /** The search stack is open, everything else that was seen is closed under neighbours. */
  ghost predicate Closed(adj: seq<set<nat>>, state: set<nat>, stack: set<nat>) {
    forall y :: y in state && y !in stack ==> y < |adj| && adj[y] <= state
  }

  ghost predicate AllReached(adj: seq<set<nat>>, V: set<nat>, from: nat, targets: set<nat>) {
    forall v :: v in targets ==> Reach(adj, V, from, v)
  }

  /** low is a lower bound for the entry times of everything adjacent to T but outside it,
      except across the tree edge from a to its parent and the edges of a in todo. */
  ghost predicate LowBound(adj: seq<set<nat>>, T: set<nat>, tin: map<nat, nat>, low: nat, a: nat, b: Parent,
                           todo: set<nat>) {
    forall x: nat, y: nat ::
      x < |adj| && x in T && y in adj[x] && y !in T && !(x == a && (b == Parent(y) || y in todo)) && y in tin ==>
        low <= tin[y]
  }

  /** low is the entry time of a, or of a node that some edge out of T other than (a, b) leads to. */
  ghost predicate LowWitness(adj: seq<set<nat>>, T: set<nat>, tin: map<nat, nat>, low: nat, a: nat, b: Parent) {
    (a in tin && low == tin[a]) ||
    exists x: nat, y: nat ::
        x < |adj| && x in T && y in adj[x] && !(x == a && b == Parent(y)) && y in tin && tin[y] == low
  }

  ghost predicate CutOff(adj: seq<set<nat>>, T: set<nat>, a: nat, last: nat, x: nat, y: nat) {
    exists S: set<nat> :: S <= T && last in S && a !in S && (x in S <==> y !in S) && OnlyExit(adj, S, x, y)
  }

  ghost predicate MarksSound(adj: seq<set<nat>>, T: set<nat>, marked: set<(nat, nat)>, a: nat, last: nat) {
    forall x: nat, y: nat :: (x, y) in marked ==> x < |adj| && y in adj[x] && CutOff(adj, T, a, last, x, y)
  }

  ghost predicate MarksComplete(adj: seq<set<nat>>, V: set<nat>, marked: set<(nat, nat)>, a: nat, last: nat) {
    forall x: nat, y: nat :: (x, y) !in marked ==> ReachAvoiding(adj, V, a, last, x, y)
  }

  /** Leaving the finished subtree T of c by anything but (c, a) contradicts fup[c] > tin[a]:
      the far end is still on the stack, so it was entered no later than a. */
  lemma SubtreeCut(adj: seq<set<nat>>, before: set<nat>, after: set<nat>, stack: set<nat>, tin: map<nat, nat>,
                   low: nat, a: nat, c: nat)
    requires Undirected(adj)
    requires before <= after && stack <= before && a in stack && c in after - before
    requires Closed(adj, before, stack) && Closed(adj, after, stack)
    requires a in tin && forall y :: y in stack ==> y in tin && y < |adj| && tin[y] <= tin[a]
    requires LowBound(adj, after - before, tin, low, c, Parent(a), {})
    requires low > tin[a]
    ensures OnlyExit(adj, after - before, a, c)
  {
    var T := after - before;
    forall x: nat, y: nat | x < |adj| && y in adj[x] && x in T && y !in T
      ensures SameEdge(x, y, a, c)
    {
      assert x !in stack;
      assert y in after;
      assert y in before;
      assert x in adj[y] && x !in before;
      assert y in stack;
    }
  }

  /** If fup[c] <= tin[a], some edge other than (a, c) joins c's subtree to the nodes seen before. */
  lemma Detour(adj: seq<set<nat>>, before: set<nat>, after: set<nat>, tin: map<nat, nat>, low: nat, a: nat, c: nat)
    requires Undirected(adj)
    requires before <= after && a in before && c in after - before && a < |adj|
    requires a in tin && forall v :: v in after - before ==> v in tin && tin[a] < tin[v]
    requires forall v :: v in tin ==> v in after
    requires AllReached(adj, before, a, before) && AllReached(adj, after - before, c, after - before)
    requires LowWitness(adj, after - before, tin, low, c, Parent(a))
    requires low <= tin[a]
    ensures ReachAvoiding(adj, after, a, c, a, c)
    ensures ReachAvoiding(adj, after, a, c, c, a)
  {
    var T := after - before;
    var x: nat, y: nat :| x < |adj| && x in T && y in adj[x] && !(x == c && Parent(a) == Parent(y)) && y in tin
        && tin[y] == low;
    assert y in before;
    assert Reach(adj, before, a, y);
    assert Reach(adj, T, c, x);
    ReachSym(adj, T, c, x);
    InsideAvoids(adj, before, a, y, a, c);
    InsideAvoids(adj, before, a, y, c, a);
    InsideAvoids(adj, T, x, c, a, c);
    InsideAvoids(adj, T, x, c, c, a);
    AvoidMono(adj, before, after, a, y, a, c);
    AvoidMono(adj, before, after, a, y, c, a);
    AvoidMono(adj, T, after, x, c, a, c);
    AvoidMono(adj, T, after, x, c, c, a);
    assert x in adj[y];
    ReachEdge(adj, after, y, x);
    AvoidTrans(adj, after, a, y, x, a, c);
    AvoidTrans(adj, after, a, x, c, a, c);
    AvoidTrans(adj, after, a, y, x, c, a);
    AvoidTrans(adj, after, a, x, c, c, a);
  }

  /** One step down the tree: unmarked edges are avoidable from a because they are from c. */
  lemma CompleteUp(adj: seq<set<nat>>, before: set<nat>, after: set<nat>, tin: map<nat, nat>, low: nat, a: nat, c: nat,
                   last: nat, marked: set<(nat, nat)>, marked': set<(nat, nat)>)
    requires Undirected(adj)
    requires before <= after && a in before && c in after - before && a < |adj| && c in adj[a]
    requires a in tin && forall v :: v in after - before ==> v in tin && tin[a] < tin[v]
    requires forall v :: v in tin ==> v in after
    requires AllReached(adj, before, a, before) && AllReached(adj, after - before, c, after - before)
    requires LowWitness(adj, after - before, tin, low, c, Parent(a))
    requires MarksComplete(adj, after, marked, c, last)
    requires marked' == if low > tin[a] then marked + {(a, c), (c, a)} else marked
    ensures MarksComplete(adj, after, marked', a, last)
  {
    forall x: nat, y: nat | (x, y) !in marked' ensures ReachAvoiding(adj, after, a, last, x, y) {
      assert ReachAvoiding(adj, after, c, last, x, y);
      if SameEdge(a, c, x, y) {
        Detour(adj, before, after, tin, low, a, c);
      } else {
        ReachEdge(adj, after, a, c);
      }
      AvoidTrans(adj, after, a, c, last, x, y);
    }
  }

  /** What the loop of recursive knows about the subtree T of a, given the nodes seen before a. */
  ghost predicate LoopInv(adj: seq<set<nat>>, seen: set<nat>, state: set<nat>, stack: set<nat>, tin: map<nat, nat>,
                          a: nat, b: Parent, low: nat, todo: set<nat>)
  {
    && seen + {a} <= state && a !in seen
    && tin.Keys == state
    && (forall v :: v in state ==> v < |adj|)
    && (forall v :: v in state - seen - {a} ==> tin[v] > tin[a])
    && Closed(adj, state, stack + {a})
    && todo <= adj[a] && adj[a] - todo <= state
    && AllReached(adj, state, a, state)
    && AllReached(adj, state - seen, a, state - seen)
    && low <= tin[a]
    && LowBound(adj, state - seen, tin, low, a, b, todo)
    && LowWitness(adj, state - seen, tin, low, a, b)
  }

  /** The loop facts after the call on child c: before and after are the states around the call. */
  lemma Descend(adj: seq<set<nat>>, seen: set<nat>, before: set<nat>, after: set<nat>, stack: set<nat>,
                tin: map<nat, nat>, tin': map<nat, nat>, a: nat, b: Parent, c: nat, low: nat, lowC: nat, todo: set<nat>)
    requires Undirected(adj)
    requires LoopInv(adj, seen, before, stack, tin, a, b, low, todo + {c})
    requires c in adj[a] && c !in before && b != Parent(c) && c !in todo
    requires before + {c} <= after && tin'.Keys == after
    requires forall v :: v in after ==> v < |adj|
    requires forall v :: v in before ==> tin'[v] == tin[v]
    requires forall v :: v in after - before ==> tin'[v] > tin[a]
    requires Closed(adj, after, stack + {a})
    requires AllReached(adj, after - before, c, after - before)
    requires LowBound(adj, after - before, tin', lowC, c, Parent(a), {})
    requires LowWitness(adj, after - before, tin', lowC, c, Parent(a))
    ensures LoopInv(adj, seen, after, stack, tin', a, b, if low <= lowC then low else lowC, todo)
  {
    hide LowBound, LowWitness, AllReached, Closed, Undirected;
    DescendReach(adj, before, before, after, a, c);
    DescendReach(adj, before - seen, before, after, a, c);
    assert before + (after - before) == after;
    assert (before - seen) + (after - before) == after - seen;
    DescendBound(adj, seen, before, after, tin, tin', a, b, c, low, lowC, todo);
    DescendWitness(adj, seen, before, after, tin, tin', a, b, c, low, lowC);
  }

  lemma DescendBound(adj: seq<set<nat>>, seen: set<nat>, before: set<nat>, after: set<nat>,
                     tin: map<nat, nat>, tin': map<nat, nat>, a: nat, b: Parent, c: nat, low: nat, lowC: nat,
                     todo: set<nat>)
    requires seen + {a} <= before && before + {c} <= after && a !in seen && c !in before
    requires tin.Keys == before && tin'.Keys == after
    requires forall v :: v in before ==> tin'[v] == tin[v]
    requires LowBound(adj, before - seen, tin, low, a, b, todo + {c})
    requires LowBound(adj, after - before, tin', lowC, c, Parent(a), {})
    ensures LowBound(adj, after - seen, tin', if low <= lowC then low else lowC, a, b, todo)
  {
    var T, low' := after - seen, if low <= lowC then low else lowC;
    forall x: nat, y: nat | x < |adj| && x in T && y in adj[x] && y !in T && !(x == a && (b == Parent(y) || y in todo))
        && y in tin'
      ensures low' <= tin'[y]
    {
      assert y in seen;
      if x in before {
        assert low <= tin[y];
      } else {
        assert lowC <= tin'[y];
      }
    }
  }

  lemma DescendWitness(adj: seq<set<nat>>, seen: set<nat>, before: set<nat>, after: set<nat>,
                       tin: map<nat, nat>, tin': map<nat, nat>, a: nat, b: Parent, c: nat, low: nat, lowC: nat)
    requires seen + {a} <= before && before + {c} <= after && a !in seen && c !in before
    requires tin.Keys == before && tin'.Keys == after
    requires forall v :: v in before ==> tin'[v] == tin[v]
    requires low <= tin[a] < tin'[c]
    requires LowWitness(adj, before - seen, tin, low, a, b)
    requires LowWitness(adj, after - before, tin', lowC, c, Parent(a))
    ensures LowWitness(adj, after - seen, tin', if low <= lowC then low else lowC, a, b)
  {
    if low <= lowC {
      if low != tin[a] {
        var x: nat, y: nat :| x < |adj| && x in before - seen && y in adj[x] && !(x == a && b == Parent(y)) && y in tin
            && tin[y] == low;
        assert x in after - seen && y in tin' && tin'[y] == low;
      }
    } else {
      var x: nat, y: nat :| x < |adj| && x in after - before && y in adj[x] && !(x == c && Parent(a) == Parent(y))
          && y in tin' && tin'[y] == lowC;
      assert x in after - seen && x != a;
    }
  }

  lemma DescendReach(adj: seq<set<nat>>, V: set<nat>, before: set<nat>, after: set<nat>, a: nat, c: nat)
    requires V <= before <= after && a in V && c in after - before && a < |adj| && c < |adj| && c in adj[a]
    requires AllReached(adj, V, a, V)
    requires AllReached(adj, after - before, c, after - before)
    ensures AllReached(adj, V + (after - before), a, V + (after - before))
  {
    var W := V + (after - before);
    ReachEdge(adj, W, a, c);
    forall v | v in W ensures Reach(adj, W, a, v) {
      if v in V {
        ReachMono(adj, V, W, a, v);
      } else {
        ReachMono(adj, after - before, W, c, v);
        ReachTrans(adj, W, a, c, v);
      }
    }
  }

  /** The call on c cleared the map, so its marks and possibly (a, c) are all there is. */
  lemma SoundUp(adj: seq<set<nat>>, seen: set<nat>, before: set<nat>, after: set<nat>, marked: set<(nat, nat)>,
                marked': set<(nat, nat)>, a: nat, c: nat, last: nat)
    requires Undirected(adj)
    requires seen + {a} <= before <= after && c in after - before && last in after - before && a < |adj| && c in adj[a]
    requires MarksSound(adj, after - before, marked, c, last)
    requires marked' == marked || (marked' == marked + {(a, c), (c, a)} && OnlyExit(adj, after - before, a, c))
    ensures MarksSound(adj, after - seen, marked', a, last)
  {
    assert c < |adj| && a in adj[c];
    forall x: nat, y: nat | (x, y) in marked'
      ensures x < |adj| && y in adj[x] && CutOff(adj, after - seen, a, last, x, y)
    {
      if (x, y) in marked {
        assert CutOff(adj, after - before, c, last, x, y);
        var S: set<nat> :| S <= after - before && last in S && c !in S && (x in S <==> y !in S)
            && OnlyExit(adj, S, x, y);
        assert S <= after - seen && a !in S;
      } else {
        var S := after - before;
        assert OnlyExit(adj, S, x, y);
        assert S <= after - seen && last in S && a !in S && (x in S <==> y !in S);
      }
    }
  }

  /** Entering a node: it is its own subtree so far. */
  lemma Enter(adj: seq<set<nat>>, seen: set<nat>, stack: set<nat>, tin: map<nat, nat>, a: nat, b: Parent)
    requires Undirected(adj)
    requires a < |adj| && a !in seen && tin.Keys == seen + {a}
    requires forall v :: v in seen ==> v < |adj|
    requires Closed(adj, seen, stack)
    requires b == NoParent ==> seen == {}
    requires b.Parent? ==> b.node in seen && a in adj[b.node] && AllReached(adj, seen, b.node, seen)
    ensures LoopInv(adj, seen, seen + {a}, stack, tin, a, b, tin[a], adj[a])
    ensures forall marked :: MarksComplete(adj, seen + {a}, marked, a, a)
  {
    var V := seen + {a};
    assert V - seen == {a};
    ReachSelf(adj, V, a);
    ReachSelf(adj, {a}, a);
    forall v | v in seen ensures Reach(adj, V, a, v) {
      ReachEdge(adj, V, a, b.node);
      ReachMono(adj, seen, V, b.node, v);
      ReachTrans(adj, V, a, b.node, v);
    }
    assert AllReached(adj, {a}, a, {a});
  }

  /** The fields of the dfs struct at one moment. */
  datatype Search = Search(timer: nat, state: set<nat>, tin: map<nat, nat>, fup: map<nat, nat>, marked: set<(nat, nat)>)

  ghost predicate Wf(adj: seq<set<nat>>, s: Search) {
    && Undirected(adj)
    && s.tin.Keys == s.state && s.fup.Keys == s.state
    && (forall v :: v in s.state ==> v < |adj| && s.tin[v] <= s.timer)
  }

  /** What a call recursive(a, b) relies on: b is the top of the stack of open nodes. */
  ghost predicate Ready(adj: seq<set<nat>>, s: Search, a: nat, b: Parent, stack: set<nat>) {
    && Wf(adj, s)
    && a < |adj| && a !in s.state && stack <= s.state
    && Closed(adj, s.state, stack)
    && match b
       case NoParent => s.state == {}
       case Parent(t) =>
         && t in stack && a in adj[t] && AllReached(adj, s.state, t, s.state)
         && forall y :: y in stack ==> s.tin[y] <= s.tin[t]
  }

  ghost predicate Extends(s: Search, s': Search, a: nat) {
    && s.state + {a} <= s'.state && s.timer < s'.timer
    && s'.tin.Keys == s'.state && s'.fup.Keys == s'.state && s.tin.Keys == s.state && s.fup.Keys == s.state
    && s'.tin[a] == s.timer + 1
    && (forall v :: v in s.state ==> s'.tin[v] == s.tin[v] && s'.fup[v] == s.fup[v])
    && (forall v :: v in s'.state - s.state ==> s'.tin[v] > s.timer)
  }

  /** What the call on a has established when it returns; last is the node discovered last. */
  ghost predicate Returned(adj: seq<set<nat>>, s: Search, s': Search, a: nat, b: Parent, stack: set<nat>, last: nat) {
    var T := s'.state - s.state;
    && Wf(adj, s') && Extends(s, s', a)
    && Closed(adj, s'.state, stack)
    && AllReached(adj, T, a, T)
    && LowBound(adj, T, s'.tin, s'.fup[a], a, b, {})
    && LowWitness(adj, T, s'.tin, s'.fup[a], a, b)
    && last in T
    && MarksSound(adj, T, s'.marked, a, last)
    && MarksComplete(adj, s'.state, s'.marked, a, last)
  }

  /** The loop over the children of a, with those in todo still to come. */
  ghost predicate InLoop(adj: seq<set<nat>>, s: Search, s': Search, a: nat, b: Parent, stack: set<nat>, todo: set<nat>,
                         last: nat) {
    && Wf(adj, s') && Extends(s, s', a)
    && LoopInv(adj, s.state, s'.state, stack, s'.tin, a, b, s'.fup[a], todo)
    && last in s'.state - s.state
    && MarksSound(adj, s'.state - s.state, s'.marked, a, last)
    && MarksComplete(adj, s'.state, s'.marked, a, last)
  }

  function Min(a: nat, b: nat): nat {
    if a <= b then a else b
  }

  function Entered(s: Search, a: nat): Search {
    Search(s.timer + 1, s.state + {a}, s.tin[a := s.timer + 1], s.fup[a := s.timer + 1], {})
  }

  function Lowered(s: Search, a: nat, low: nat): Search
    requires a in s.fup
  {
    s.(fup := s.fup[a := Min(s.fup[a], low)])
  }

  function MarkedIfCut(s: Search, a: nat, c: nat): Search
    requires c in s.fup && a in s.tin
  {
    if s.fup[c] > s.tin[a] then s.(marked := s.marked + {(a, c), (c, a)}) else s
  }

  lemma Enters(adj: seq<set<nat>>, s: Search, a: nat, b: Parent, stack: set<nat>)
    requires Ready(adj, s, a, b, stack)
    ensures a < |adj| && a !in s.state
    ensures InLoop(adj, s, Entered(s, a), a, b, stack, adj[a], a)
  {
    hide AllReached, Closed, LowBound, LowWitness, MarksComplete;
    Enter(adj, s.state, stack, Entered(s, a).tin, a, b);
  }

  lemma Leaves(adj: seq<set<nat>>, s: Search, s': Search, a: nat, b: Parent, stack: set<nat>, last: nat)
    requires InLoop(adj, s, s', a, b, stack, {}, last)
    ensures Returned(adj, s, s', a, b, stack, last)
  {
  }

  /** An edge to a node seen before enters into the low-link. */
  lemma BackLow(adj: seq<set<nat>>, T: set<nat>, tin: map<nat, nat>, low: nat, a: nat, b: Parent, todo: set<nat>,
                c: nat)
    requires LowBound(adj, T, tin, low, a, b, todo) && LowWitness(adj, T, tin, low, a, b)
    requires a < |adj| && a in T && c in adj[a] && c in tin && b != Parent(c)
    ensures LowBound(adj, T, tin, Min(low, tin[c]), a, b, todo - {c})
    ensures LowWitness(adj, T, tin, Min(low, tin[c]), a, b)
  {
  }

  /** The parent is skipped; a node seen before only lowers fup[a]. */
  lemma BackEdge(adj: seq<set<nat>>, s: Search, s': Search, a: nat, b: Parent, stack: set<nat>, todo: set<nat>,
                 last: nat, c: nat)
    requires InLoop(adj, s, s', a, b, stack, todo, last) && c in todo
    requires Ready(adj, s, a, b, stack)
    ensures s.state + {a} <= s'.state && s'.tin.Keys == s'.state && s'.fup.Keys == s'.state
    ensures b == Parent(c) ==> c in s'.state && InLoop(adj, s, s', a, b, stack, todo - {c}, last)
    ensures b != Parent(c) && c in s'.state ==>
              InLoop(adj, s, Lowered(s', a, s'.tin[c]), a, b, stack, todo - {c}, last)
  {
    hide MarksSound, MarksComplete, AllReached, Closed, LowBound, LowWitness, Undirected;
    if b == Parent(c) {
      ParentDone(adj, s'.state - s.state, s'.tin, s'.fup[a], a, b, todo, c);
    } else if c in s'.state {
      BackLow(adj, s'.state - s.state, s'.tin, s'.fup[a], a, b, todo, c);
    }
  }

  lemma ParentDone(adj: seq<set<nat>>, T: set<nat>, tin: map<nat, nat>, low: nat, a: nat, b: Parent, todo: set<nat>,
                   c: nat)
    requires LowBound(adj, T, tin, low, a, b, todo) && b == Parent(c)
    ensures LowBound(adj, T, tin, low, a, b, todo - {c})
  {
  }

  lemma ReadyChild(adj: seq<set<nat>>, s: Search, s': Search, a: nat, b: Parent, stack: set<nat>, todo: set<nat>,
                   last: nat, c: nat)
    requires Ready(adj, s, a, b, stack)
    requires InLoop(adj, s, s', a, b, stack, todo, last) && c in todo && c !in s'.state
    ensures Ready(adj, s', c, Parent(a), stack + {a})
  {
    hide MarksSound, MarksComplete, AllReached, LowBound, LowWitness;
    assert Wf(adj, s');
    assert a in s'.state && c in adj[a] && c < |adj|;
    assert stack + {a} <= s'.state;
    assert Closed(adj, s'.state, stack + {a});
    assert AllReached(adj, s'.state, a, s'.state);
    assert forall y :: y in stack + {a} ==> s'.tin[y] <= s'.tin[a];
  }

  lemma TreeEdge(adj: seq<set<nat>>, s: Search, s1: Search, s2: Search, a: nat, b: Parent, stack: set<nat>,
                 todo: set<nat>, last: nat, last': nat, c: nat)
    requires Ready(adj, s, a, b, stack)
    requires InLoop(adj, s, s1, a, b, stack, todo, last) && c in todo && c !in s1.state && b != Parent(c)
    requires Returned(adj, s1, s2, c, Parent(a), stack + {a}, last')
    ensures a in s2.fup && c in s2.fup && a in s2.tin
    ensures InLoop(adj, s, MarkedIfCut(Lowered(s2, a, s2.fup[c]), a, c), a, b, stack, todo - {c}, last')
  {
    hide MarksSound, MarksComplete, AllReached, LowBound, LowWitness, Closed, OnlyExit;
    ReadyChild(adj, s, s1, a, b, stack, todo, last, c);
    assert todo - {c} + {c} == todo;
    Descend(adj, s.state, s1.state, s2.state, stack, s1.tin, s2.tin, a, b, c, s1.fup[a], s2.fup[c], todo - {c});
    if s2.fup[c] > s2.tin[a] {
      SubtreeCut(adj, s1.state, s2.state, stack + {a}, s2.tin, s2.fup[c], a, c);
    }
    ExtendsFurther(s, s1, s2, a, c);
    var s3 := MarkedIfCut(Lowered(s2, a, s2.fup[c]), a, c);
    SoundUp(adj, s.state, s1.state, s2.state, s2.marked, s3.marked, a, c, last');
    CompleteUp(adj, s1.state, s2.state, s2.tin, s2.fup[c], a, c, last', s2.marked, s3.marked);
  }

  lemma ExtendsFurther(s: Search, s1: Search, s2: Search, a: nat, c: nat)
    requires Extends(s, s1, a) && Extends(s1, s2, c) && a !in s.state
    ensures a in s2.fup && c in s2.fup && a in s2.tin
    ensures Extends(s, MarkedIfCut(Lowered(s2, a, s2.fup[c]), a, c), a)
  {
  }

  /** The children of a still to come. */
  ghost function Todo(order: seq<nat>, i: nat): set<nat>
    requires i <= |order|
  {
    Elems(order[i..])
  }

  lemma TodoStep(order: seq<nat>, i: nat)
    requires i < |order| && Distinct(order)
    ensures order[i] in Todo(order, i) && Todo(order, i) - {order[i]} == Todo(order, i + 1)
  {
    assert order[i..] == [order[i]] + order[i + 1..];
    assert order[i] !in order[i + 1..];
  }

  class Dfs {
    const adj: seq<set<nat>>
    const order: seq<seq<nat>>     // for every node the order in which its children come
    var timer: nat
    var state: set<nat>
    var tin: map<nat, nat>
    var fup: map<nat, nat>
    var marked: set<(nat, nat)>

    constructor (adj: seq<set<nat>>, order: seq<seq<nat>>)
      ensures this.adj == adj && this.order == order && View() == Search(0, {}, map[], map[], {})
    {
      this.adj, this.order := adj, order;
      timer, state, tin, fup, marked := 0, {}, map[], map[], {};
    }

    ghost function View(): Search
      reads this
    {
      Search(timer, state, tin, fup, marked)
    }

    /** Depth-first search below a, coming from b, given what has been found before. */
    method Recursive(a: nat, b: Parent, ghost stack: set<nat>, ghost before: seq<nat>) returns (ghost found: seq<nat>)
      requires Ready(adj, View(), a, b, stack) && IsOrder(adj, order) && Named(order)
      requires a < |order| && a !in before && Elems(before) == state
      modifies this
      ensures found == Discover(order, a, before) && Elems(found) == state
      ensures Returned(adj, old(View()), View(), a, b, stack, LastOf(found))
      decreases Below(|adj|) - state, 0
    {
      hide Ready, Returned, InLoop, Wf, IsOrder, Named, Elems, Todo, LastOf, Discover, Scan, ScanOne;
      ghost var s := View();
      ScanBegins(order, a, before);
      state := state + {a};
      timer := timer + 1;
      tin, fup := tin[a := timer], fup[a := timer];
      marked := {};
      found := before + [a];
      Enters(adj, s, a, b, stack);
      AllTodo(adj, order, a);
      for i := 0 to |order[a]|
        invariant Elems(found) == state && Scan(order, a, i, found) == Discover(order, a, before)
        invariant InLoop(adj, s, View(), a, b, stack, Todo(order[a], i), LastOf(found))
      {
        LoopState(adj, s, View(), a, b, stack, Todo(order[a], i), LastOf(found));
        ScanStep(order, a, i, found);
        found := Child(a, b, i, stack, s, found);
      }
      ScanEnds(order, a, found);
      Leaves(adj, s, View(), a, b, stack, LastOf(found));
    }

    /** The i-th child of a. */
    method Child(a: nat, b: Parent, i: nat, ghost stack: set<nat>, ghost s: Search, ghost before: seq<nat>)
      returns (ghost found: seq<nat>)
      requires Ready(adj, s, a, b, stack) && IsOrder(adj, order) && Named(order) && a < |order| && i < |order[a]|
      requires Elems(before) == state && InLoop(adj, s, View(), a, b, stack, Todo(order[a], i), LastOf(before))
      modifies this
      ensures found == ScanOne(order, a, i, before) && Elems(found) == state
      ensures InLoop(adj, s, View(), a, b, stack, Todo(order[a], i + 1), LastOf(found))
      decreases Below(|adj|) - state, 1
    {
      hide Ready, Returned, InLoop, Wf, Elems, Todo, LastOf, Discover;
      var c := order[a][i];
      ghost var s1, rest, last := View(), Todo(order[a], i), LastOf(before);
      TodoStep(order[a], i);
      BackEdge(adj, s, s1, a, b, stack, rest, last, c);
      found := before;
      if b == Parent(c) {
        return;
      }
      if c in state {
        fup := fup[a := Min(fup[a], tin[c])];
        assert View() == Lowered(s1, a, s1.tin[c]);
      } else {
        ReadyChild(adj, s, s1, a, b, stack, rest, last, c);
        found := Recursive(c, Parent(a), stack + {a}, before);
        ghost var s2 := View();
        TreeEdge(adj, s, s1, s2, a, b, stack, rest, last, LastOf(found), c);
        fup := fup[a := Min(fup[a], fup[c])];
        if fup[c] > tin[a] {
          marked := marked + {(a, c), (c, a)};
        }
        assert View() == MarkedIfCut(Lowered(s2, a, s2.fup[c]), a, c);
      }
    }
  }

  lemma LoopState(adj: seq<set<nat>>, s: Search, s': Search, a: nat, b: Parent, stack: set<nat>, todo: set<nat>,
                  last: nat)
    requires InLoop(adj, s, s', a, b, stack, todo, last)
    ensures a !in s.state && s.state + {a} <= s'.state && a < |adj|
  {
  }

  lemma ScanBegins(order: seq<seq<nat>>, a: nat, before: seq<nat>)
    requires Named(order) && a < |order| && a !in before
    ensures Scan(order, a, 0, before + [a]) == Discover(order, a, before)
    ensures LastOf(before + [a]) == a && Elems(before + [a]) == Elems(before) + {a}
  {
  }

  lemma ScanEnds(order: seq<seq<nat>>, a: nat, found: seq<nat>)
    requires Named(order) && a < |order|
    ensures Scan(order, a, |order[a]|, found) == found
  {
  }

  lemma ScanStep(order: seq<seq<nat>>, a: nat, i: nat, found: seq<nat>)
    requires Named(order) && a < |order| && i < |order[a]|
    ensures Scan(order, a, i, found) == Scan(order, a, i + 1, ScanOne(order, a, i, found))
  {
  }

  lemma AllTodo(adj: seq<set<nat>>, order: seq<seq<nat>>, a: nat)
    requires IsOrder(adj, order) && a < |order|
    ensures Todo(order[a], 0) == adj[a] && Todo(order[a], |order[a]|) == {} && Distinct(order[a])
  {
    assert order[a][0..] == order[a];
    assert order[a][|order[a]|..] == [];
  }

  /** Edges (x, y) without which root cannot reach last. */
  ghost predicate Separates(adj: seq<set<nat>>, root: nat, last: nat, x: nat, y: nat) {
    x < |adj| && y in adj[x] && !ReachAvoiding(adj, Below(|adj|), root, last, x, y)
  }

  /** A mark comes with a set holding exactly one of root and last, and exactly one of x and y. */
  lemma MarkedCuts(adj: seq<set<nat>>, T: set<nat>, marked: set<(nat, nat)>, root: nat, last: nat, x: nat, y: nat)
    requires Undirected(adj) && MarksSound(adj, T, marked, root, last) && (x, y) in marked
    ensures Separates(adj, root, last, x, y) && IsBridge(adj, Below(|adj|), x, y)
  {
    var V := Below(|adj|);
    assert CutOff(adj, T, root, last, x, y);
    var S: set<nat> :| S <= T && last in S && root !in S && (x in S <==> y !in S) && OnlyExit(adj, S, x, y);
    NoWalkAcross(adj, V, S, last, root, x, y);
    if x in S {
      NoWalkAcross(adj, V, S, x, y, x, y);
    } else {
      NoWalkAcross(adj, V, S, y, x, x, y);
    }
  }

  lemma NoWalkAcross(adj: seq<set<nat>>, V: set<nat>, S: set<nat>, u: nat, v: nat, x: nat, y: nat)
    requires Undirected(adj) && OnlyExit(adj, S, x, y) && u in S && v !in S
    ensures !ReachAvoiding(adj, V, u, v, x, y) && !ReachAvoiding(adj, V, v, u, x, y)
  {
    if ReachAvoiding(adj, V, v, u, x, y) {
      AvoidSym(adj, V, v, u, x, y);
    }
    if ReachAvoiding(adj, V, u, v, x, y) {
      var p :| Walk(adj, V, p, u, v) && Avoids(p, x, y);
      CutSeparates(adj, V, S, p, u, v, x, y);
    }
  }

  /** GetBridges for one order of the children: exactly the edges that separate the root from the
      node discovered last are marked, and each of them is a bridge. */
  method GetBridges(adj: seq<set<nat>>, order: seq<seq<nat>>, root: nat) returns (marked: set<(nat, nat)>)
    requires Usable(adj, order, root)
    ensures forall x: nat, y: nat :: (x, y) in marked <==> Separates(adj, root, Last(order, root), x, y)
    ensures forall x: nat, y: nat :: (x, y) in marked ==> IsBridge(adj, Below(|adj|), x, y)
  {
    var search := new Dfs(adj, order);
    ghost var found := search.Recursive(root, NoParent, {}, []);
    marked := search.marked;
    MarksExact(adj, search.View(), root, Last(order, root));
  }

  lemma MarksExact(adj: seq<set<nat>>, s: Search, root: nat, last: nat)
    requires Undirected(adj) && Returned(adj, Search(0, {}, map[], map[], {}), s, root, NoParent, {}, last)
    ensures forall x: nat, y: nat :: (x, y) in s.marked <==> Separates(adj, root, last, x, y)
    ensures forall x: nat, y: nat :: (x, y) in s.marked ==> IsBridge(adj, Below(|adj|), x, y)
  {
    assert s.state - {} == s.state <= Below(|adj|);
    assert MarksSound(adj, s.state, s.marked, root, last) && MarksComplete(adj, s.state, s.marked, root, last);
    hide Returned, MarksSound;
    forall x: nat, y: nat
      ensures (x, y) in s.marked <==> Separates(adj, root, last, x, y)
      ensures (x, y) in s.marked ==> IsBridge(adj, Below(|adj|), x, y)
    {
      if (x, y) in s.marked {
        MarkedCuts(adj, s.state, s.marked, root, last, x, y);
      } else {
        AvoidMono(adj, s.state, Below(|adj|), root, last, x, y);
      }
    }
  }

  /** The children of every node in the order in which a map happens to yield them. */
  method MapOrder(adj: seq<set<nat>>) returns (order: seq<seq<nat>>)
    requires Undirected(adj)
    ensures IsOrder(adj, order) && Named(order)
  {
    order := [];
    for v := 0 to |adj|
      invariant |order| == v
      invariant forall u: nat :: u < v ==> Distinct(order[u]) && Elems(order[u]) == adj[u]
    {
      var keys, todo := [], adj[v];
      while todo != {}
        invariant Distinct(keys) && Elems(keys) !! todo && Elems(keys) + todo == adj[v]
        decreases todo
      {
        var c :| c in todo;
        assert c !in keys;
        keys, todo := keys + [c], todo - {c};
      }
      order := order + [keys];
    }
    forall v: nat, w: nat | v < |adj| ensures w in order[v] <==> w in adj[v] {
      assert w in order[v] <==> w in Elems(order[v]);
    }
    OrderNamed(adj, order);
  }
}
