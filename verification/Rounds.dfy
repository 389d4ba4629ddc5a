/**
 The later passes of BFTCoSi over the tree the echo phase has set up: the commit round and the two
 response phases all send a message down to dynamicChildren, wait at each node for as many answers as
 it has children, and pass one value up to Parent.
 */
module Rounds {
  import opened Sets
  import opened Locality
  import opened Group
  import opened Aggregation

  datatype Member = Member(active: bool, heard: seq<nat>, values: seq<Point>, passed: Option<Point>)

  /** combine is what a node makes of its children's values: Commit or Response of the CoSi struct,
      with the own part taken out again by a node that refuses to sign.  A crashed node panics when it
      should pass its value up, as waitResponseVerification does when the verification fails. */
  datatype Pass = Pass(tree: Tree, combine: (nat, seq<Point>) -> Point, crashed: set<nat>)
  {
    function N(): nat { tree.N() }

    ghost predicate NoCrash() { forall v: nat :: v < N() ==> v !in crashed }
  }

  datatype State = State(members: seq<Member>, down: multiset<(nat, nat)>, up: multiset<(nat, nat, Point)>)

  function Idle(): Member { Member(false, [], [], None) }

  /** A node that holds as many values as it has children passes one up, or crashes. */
  function IfComplete(p: Pass, v: nat, m: Member): Member
    requires v < |p.tree.children|
  {
    if |m.values| == |p.tree.children[v]| && v !in p.crashed then m.(passed := Some(p.combine(v, m.values))) else m
  }

  function Edges(v: nat, kids: seq<nat>): set<(nat, nat)> {
    set c | c in kids :: (v, c)
  }

  function PassedUp(p: Pass, v: nat, m: Member): multiset<(nat, nat, Point)>
    requires v < |p.tree.parent|
  {
    if m.passed.Some? && p.tree.parent[v].Some? then multiset{(v, p.tree.parent[v].value, m.passed.value)}
    else multiset{}
  }

  function Start(p: Pass): State
    requires p.tree.root < p.N() && |p.tree.children| == p.N()
  {
    var r := p.tree.root;
    State(seq(p.N(), _ => Idle())[r := IfComplete(p, r, Idle().(active := true))],
          multiset(Edges(r, p.tree.children[r])), multiset{})
  }

  /** The announcement or challenge reaches c: a leaf answers, others pass it on. */
  function OnDown(p: Pass, s: State, v: nat, c: nat): State
    requires |s.members| == |p.tree.children| == p.N() && c < p.N()
  {
    var m := IfComplete(p, c, s.members[c].(active := true));
    State(s.members[c := m], s.down - multiset{(v, c)} + multiset(Edges(c, p.tree.children[c])),
          s.up + PassedUp(p, c, m))
  }

  /** readCommitChan / readResponseChan: a child's value arrives at v. */
  function OnUp(p: Pass, s: State, c: nat, v: nat, x: Point): State
    requires |s.members| == |p.tree.children| == p.N() && v < p.N()
  {
    var was := s.members[v];
    var m := IfComplete(p, v, was.(heard := was.heard + [c], values := was.values + [x]));
    State(s.members[v := m], s.down, s.up - multiset{(c, v, x)} + PassedUp(p, v, m))
  }

  ghost predicate Next(p: Pass, s: State, s': State) {
    && |s.members| == |p.tree.children| == p.N()
    && ((exists v: nat, c: nat :: c < p.N() && (v, c) in s.down && s' == OnDown(p, s, v, c)) ||
        (exists c: nat, v: nat, x: Point :: v < p.N() && (c, v, x) in s.up && s' == OnUp(p, s, c, v, x)))
  }

  ghost predicate IsRun(p: Pass, run: seq<State>) {
    && p.tree.Ok() && run != [] && run[0] == Start(p)
    && forall i :: 0 <= i < |run| - 1 ==> Next(p, run[i], run[i + 1])
  }

  ghost function UpInFlight(s: State, c: nat, v: nat): nat {
    if c < |s.members| && s.members[c].passed.Some? then s.up[(c, v, s.members[c].passed.value)] else 0
  }

  /** The message sent to child c is on its way, being worked on, or answered. */
  ghost predicate LinkInv(p: Pass, s: State, v: nat, c: nat) {
    && v < |s.members| && c < |s.members|
    && s.down[(v, c)] + UpInFlight(s, c, v) + (if s.members[c].active && s.members[c].passed.None? then 1 else 0)
       + (if c in s.members[v].heard then 1 else 0) == (if s.members[v].active then 1 else 0)
    && (c in s.members[v].heard ==> s.members[c].passed.Some?)
    && (s.down[(v, c)] > 0 ==> s.members[c] == Idle())
    && (s.members[c].active ==> s.members[v].active)
  }

  ghost predicate MemberInv(p: Pass, s: State, v: nat) {
    && v < |s.members| && |s.members| == |p.tree.children| == p.N()
    && var m := s.members[v];
    && Distinct(m.heard)
    && |m.values| == |m.heard| <= |p.tree.children[v]|
    && (forall i :: 0 <= i < |m.heard| ==>
          m.heard[i] in p.tree.children[v] && m.heard[i] < p.N() && s.members[m.heard[i]].passed == Some(m.values[i]))
    && (m.active ==> (m.passed.Some? <==> |m.heard| == |p.tree.children[v]| && v !in p.crashed))
    && (m.passed.Some? ==> m.passed == Some(p.combine(v, m.values)))
    && (!m.active ==> m == Idle())
  }

  ghost predicate NetInv(p: Pass, s: State) {
    && |s.members| == |p.tree.children| == p.N()
    && (forall m :: m in s.down ==> m.0 < p.N() && m.1 in p.tree.children[m.0])
    && (forall m :: m in s.up ==> m.0 < p.N() && p.tree.parent[m.0] == Some(m.1) && s.members[m.0].passed == Some(m.2))
  }

  ghost predicate Inv(p: Pass, s: State) {
    && p.tree.Ok() && NetInv(p, s) && s.members[p.tree.root].active
    && (forall v: nat :: v < p.N() ==> MemberInv(p, s, v))
    && (forall v: nat, c: nat {:trigger LinkInv(p, s, v, c)} :: v < p.N() && c in p.tree.children[v] ==>
        LinkInv(p, s, v, c))
  }

  lemma StartInv(p: Pass)
    requires p.tree.Ok()
    ensures Inv(p, Start(p))
  {
    var s, r := Start(p), p.tree.root;
    forall v: nat, c: nat | v < p.N() && c in p.tree.children[v] ensures LinkInv(p, s, v, c) {
      assert c != r;
    }
    forall m | m in s.down ensures m.0 < p.N() && m.1 in p.tree.children[m.0] {
      assert m in Edges(r, p.tree.children[r]);
    }
  }

  lemma DownFacts(p: Pass, s: State, v: nat, c: nat)
    requires Inv(p, s) && (v, c) in s.down
    ensures v < p.N() && c < p.N() && c in p.tree.children[v] && p.tree.parent[c] == Some(v) && c != p.tree.root
    ensures v != c
    ensures s.members[c] == Idle() && s.members[v].active && s.down[(v, c)] == 1 && c !in s.members[v].heard
    ensures forall m :: m in s.up ==> m.0 != c
    ensures forall m :: m in s.down ==> m.0 != c
  {
    assert LinkInv(p, s, v, c);
    forall m | m in s.down ensures m.0 != c {
      assert LinkInv(p, s, m.0, m.1);
      assert MemberInv(p, s, c);
    }
  }

  lemma DownLinks(p: Pass, s: State, v: nat, c: nat, x: nat, y: nat)
    requires Inv(p, s) && (v, c) in s.down && c < p.N() && x < p.N() && y in p.tree.children[x]
    ensures LinkInv(p, OnDown(p, s, v, c), x, y)
  {
    DownFacts(p, s, v, c);
    assert LinkInv(p, s, x, y);
    assert MemberInv(p, s, y);
    assert p.tree.parent[y] == Some(x) && x != y;
    assert LinkInv(p, s, v, c);
    hide Inv;
  }

  lemma DownMembers(p: Pass, s: State, v: nat, c: nat, x: nat)
    requires Inv(p, s) && (v, c) in s.down && c < p.N() && x < p.N()
    ensures MemberInv(p, OnDown(p, s, v, c), x)
  {
    DownFacts(p, s, v, c);
    assert MemberInv(p, s, x);
    hide Inv;
  }

  lemma DownNet(p: Pass, s: State, v: nat, c: nat)
    requires Inv(p, s) && (v, c) in s.down && c < p.N()
    ensures NetInv(p, OnDown(p, s, v, c))
  {
    DownFacts(p, s, v, c);
    assert NetInv(p, s);
    hide Inv, LinkInv, MemberInv;
    DownSent(p, s, v, c);
    DownAnswered(p, s, v, c);
  }

  lemma DownSent(p: Pass, s: State, v: nat, c: nat)
    requires NetInv(p, s) && c < p.N()
    ensures forall m :: m in OnDown(p, s, v, c).down ==> m.0 < p.N() && m.1 in p.tree.children[m.0]
  {
    var kids := multiset(Edges(c, p.tree.children[c]));
    forall m | m in OnDown(p, s, v, c).down ensures m.0 < p.N() && m.1 in p.tree.children[m.0] {
      InUnion(s.down, multiset{(v, c)}, kids, m);
      assert m !in s.down ==> m in Edges(c, p.tree.children[c]);
    }
  }

  lemma DownAnswered(p: Pass, s: State, v: nat, c: nat)
    requires NetInv(p, s) && c < p.N() && forall m :: m in s.up ==> m.0 != c
    ensures forall m :: m in OnDown(p, s, v, c).up ==>
              m.0 < p.N() && p.tree.parent[m.0] == Some(m.1) && OnDown(p, s, v, c).members[m.0].passed == Some(m.2)
  {
    var s' := OnDown(p, s, v, c);
    forall m | m in s'.up
      ensures m.0 < p.N() && p.tree.parent[m.0] == Some(m.1) && s'.members[m.0].passed == Some(m.2)
    {
      InUnion(s.up, multiset{}, PassedUp(p, c, s'.members[c]), m);
    }
  }

  lemma InUnion<T>(a: multiset<T>, b: multiset<T>, c: multiset<T>, m: T)
    ensures m in a - b + c ==> m in a || m in c
    ensures m in a + c ==> m in a || m in c
  {
  }

  lemma DownKeeps(p: Pass, s: State, v: nat, c: nat)
    requires Inv(p, s) && (v, c) in s.down && c < p.N()
    ensures Inv(p, OnDown(p, s, v, c))
  {
    DownNet(p, s, v, c);
    hide LinkInv, MemberInv, NetInv;
    var s' := OnDown(p, s, v, c);
    forall x: nat, y: nat | x < p.N() && y in p.tree.children[x] ensures LinkInv(p, s', x, y) {
      DownLinks(p, s, v, c, x, y);
    }
    forall x: nat | x < p.N() ensures MemberInv(p, s', x) { DownMembers(p, s, v, c, x); }
  }

  /** A repetition-free list inside another that misses one of its entries is shorter. */
  lemma {:induction false} ShorterList(a: seq<nat>, b: seq<nat>, x: nat)
    requires Distinct(a) && (forall y :: y in a ==> y in b) && x in b && x !in a
    ensures |a| < |b|
    decreases |a|
  {
    if a != [] {
      var k := |a| - 1;
      assert a[k] in a;
      var i :| 0 <= i < |b| && b[i] == a[k];
      var b' := b[..i] + b[i + 1..];
      assert forall y :: y in b && y != a[k] ==> y in b' by {
        forall y | y in b && y != a[k] ensures y in b' {
          var j :| 0 <= j < |b| && b[j] == y;
          assert b'[if j < i then j else j - 1] == y;
        }
      }
      ShorterList(a[..k], b', x);
    }
  }

  lemma UpFacts(p: Pass, s: State, c: nat, v: nat, x: Point)
    requires Inv(p, s) && (c, v, x) in s.up && v < p.N()
    ensures c < p.N() && c in p.tree.children[v] && p.tree.parent[c] == Some(v) && c != v
    ensures s.members[c].passed == Some(x) && s.members[v].active && s.up[(c, v, x)] == 1 && c !in s.members[v].heard
    ensures s.members[v].passed == None && |s.members[v].heard| < |p.tree.children[v]|
    ensures forall m :: m in s.up ==> m.0 != v
  {
    assert c in p.tree.children[v];
    assert LinkInv(p, s, v, c);
    assert MemberInv(p, s, v);
    ShorterList(s.members[v].heard, p.tree.children[v], c);
  }

  lemma UpLinks(p: Pass, s: State, c: nat, v: nat, x: Point, y: nat, z: nat)
    requires Inv(p, s) && (c, v, x) in s.up && v < p.N() && y < p.N() && z in p.tree.children[y]
    ensures LinkInv(p, OnUp(p, s, c, v, x), y, z)
  {
    UpFacts(p, s, c, v, x);
    assert LinkInv(p, s, y, z);
    assert p.tree.parent[z] == Some(y) && y != z;
    hide Inv;
  }

  lemma UpMembers(p: Pass, s: State, c: nat, v: nat, x: Point, y: nat)
    requires Inv(p, s) && (c, v, x) in s.up && v < p.N() && y < p.N()
    ensures MemberInv(p, OnUp(p, s, c, v, x), y)
  {
    UpFacts(p, s, c, v, x);
    assert MemberInv(p, s, y);
    hide Inv;
    if y == v {
      assert forall i :: 0 <= i < |s.members[v].heard| ==> s.members[v].heard[i] in s.members[v].heard;
      assert v !in s.members[v].heard;
    }
  }

  lemma UpNet(p: Pass, s: State, c: nat, v: nat, x: Point)
    requires Inv(p, s) && (c, v, x) in s.up && v < p.N()
    ensures NetInv(p, OnUp(p, s, c, v, x))
  {
    UpFacts(p, s, c, v, x);
    assert NetInv(p, s);
    hide Inv, LinkInv, MemberInv;
    var s' := OnUp(p, s, c, v, x);
    forall m | m in s'.up
      ensures m.0 < p.N() && p.tree.parent[m.0] == Some(m.1) && s'.members[m.0].passed == Some(m.2)
    {
      assert m in s.up || m in PassedUp(p, v, s'.members[v]);
    }
  }

  lemma UpKeeps(p: Pass, s: State, c: nat, v: nat, x: Point)
    requires Inv(p, s) && (c, v, x) in s.up && v < p.N()
    ensures Inv(p, OnUp(p, s, c, v, x))
  {
    UpNet(p, s, c, v, x);
    hide LinkInv, MemberInv, NetInv;
    var s' := OnUp(p, s, c, v, x);
    forall y: nat, z: nat | y < p.N() && z in p.tree.children[y] ensures LinkInv(p, s', y, z) {
      UpLinks(p, s, c, v, x, y, z);
    }
    forall y: nat | y < p.N() ensures MemberInv(p, s', y) { UpMembers(p, s, c, v, x, y); }
  }

  lemma {:induction false} RunInv(p: Pass, run: seq<State>, i: nat)
    requires IsRun(p, run) && i < |run|
    ensures Inv(p, run[i])
  {
    hide Inv, OnDown, OnUp;
    if i == 0 {
      StartInv(p);
    } else {
      RunInv(p, run, i - 1);
      var s, s' := run[i - 1], run[i];
      assert Next(p, s, s');
      if v: nat, c: nat :| c < p.N() && (v, c) in s.down && s' == OnDown(p, s, v, c) {
        DownKeeps(p, s, v, c);
      } else {
        var c: nat, v: nat, x: Point :| v < p.N() && (c, v, x) in s.up && s' == OnUp(p, s, c, v, x);
        UpKeeps(p, s, c, v, x);
      }
    }
  }

  /** A node that has passed a value up has heard every child. */
  lemma HeardAll(p: Pass, s: State, v: nat, c: nat)
    requires Inv(p, s) && v < p.N() && s.members[v].passed.Some? && c in p.tree.children[v]
    ensures c in s.members[v].heard && c < p.N() && s.members[c].passed.Some?
  {
    assert MemberInv(p, s, v) && LinkInv(p, s, v, c);
    if c !in s.members[v].heard { ShorterList(s.members[v].heard, p.tree.children[v], c); }
  }

  lemma {:induction false} AllPassed(p: Pass, s: State, v: nat)
    requires Inv(p, s) && s.members[p.tree.root].passed.Some? && v < p.N()
    ensures s.members[v].passed.Some?
    decreases p.tree.depth[v]
  {
    if v != p.tree.root {
      var u := p.tree.parent[v].value;
      AllPassed(p, s, u);
      assert v in p.tree.children[u];
      HeardAll(p, s, u, v);
    }
  }

  /** The root gets its value only if no node has crashed. */
  lemma NobodyCrashed(p: Pass, run: seq<State>, i: nat)
    requires IsRun(p, run) && i < |run| && |run[i].members| == p.N() && run[i].members[p.tree.root].passed.Some?
    ensures p.NoCrash()
  {
    RunInv(p, run, i);
    forall v: nat | v < p.N() ensures v !in p.crashed {
      AllPassed(p, run[i], v);
      assert MemberInv(p, run[i], v);
    }
  }

  /** The tree with each child list in the order in which the children were heard. */
  ghost function AsHeard(p: Pass, s: State): Tree {
    p.tree.(children := seq(|s.members|, v requires 0 <= v < |s.members| => s.members[v].heard))
  }

  ghost function Values(s: State): seq<Point>
    requires forall v: nat :: v < |s.members| ==> s.members[v].passed.Some?
  {
    seq(|s.members|, v requires 0 <= v < |s.members| => s.members[v].passed.value)
  }

  lemma HeardTree(p: Pass, s: State)
    requires Inv(p, s) && s.members[p.tree.root].passed.Some?
    ensures AsHeard(p, s).Ok()
    ensures forall v: nat :: v < |s.members| ==> s.members[v].passed.Some?
    ensures forall v: nat :: v < p.N() ==>
      s.members[v].passed == Some(p.combine(v, Reported(AsHeard(p, s), Values(s), v)))
  {
    var t := AsHeard(p, s);
    forall v: nat | v < p.N()
      ensures s.members[v].passed.Some? && MemberInv(p, s, v)
      ensures forall w: nat :: w in t.children[v] <==> w in p.tree.children[v]
    {
      AllPassed(p, s, v);
      assert MemberInv(p, s, v);
      forall w: nat | w in p.tree.children[v] ensures w in t.children[v] { HeardAll(p, s, v, w); }
    }
    assert t.Ok();
    forall v: nat | v < p.N() ensures s.members[v].values == Reported(t, Values(s), v) {
      assert MemberInv(p, s, v);
    }
  }

  /** A node's part in a sum: nothing if it refuses to sign. */
  function Share(g: Abelian, own: seq<Point>, refused: set<nat>, v: nat): Point
    requires v < |own|
  {
    if v in refused then g.zero else own[v]
  }

  function Shares(g: Abelian, own: seq<Point>, refused: set<nat>): seq<Point> {
    seq(|own|, v requires 0 <= v < |own| => Share(g, own, refused, v))
  }

  /** handleResponseCommit: the own response plus the children's, and "don't include our own" again
      when signRefusal is set. */
  function Reply(g: Abelian, own: Point, signRefusal: bool, kids: seq<Point>): Point {
    var r := g.add(own, g.Sum(kids));
    if signRefusal then g.add(r, g.neg(own)) else r
  }

  function Respond(g: Abelian, own: seq<Point>, refused: set<nat>, v: nat, kids: seq<Point>): Point
    requires v < |own|
  {
    Reply(g, own[v], v in refused, kids)
  }

  lemma RespondIsShare(g: Abelian, own: seq<Point>, refused: set<nat>, v: nat, kids: seq<Point>)
    requires g.Laws() && v < |own|
    ensures Respond(g, own, refused, v, kids) == g.add(Share(g, own, refused, v), g.Sum(kids))
  {
    var a, b, n := own[v], g.Sum(kids), g.neg(own[v]);
    SwapLast(g, a, b, n);
    assert g.Cancels(a);
  }

  /** Aggregation over the dynamic tree: in every run of a pass, once the root has its value, every
      node v has passed up the sum over exactly the nodes of its subtree that did not refuse, and the
      root holds the sum over all that did not. */
  lemma PassAggregates(g: Abelian, p: Pass, own: seq<Point>, refused: set<nat>, run: seq<State>, i: nat, v: nat)
    requires g.Laws() && |own| == p.N() && IsRun(p, run) && i < |run| && v < p.N()
    requires forall u: nat, kids :: u < p.N() ==> p.combine(u, kids) == Respond(g, own, refused, u, kids)
    requires |run[i].members| == p.N() && run[i].members[p.tree.root].passed.Some?
    ensures run[i].members[v].passed == Some(SumIn(g, Shares(g, own, refused), Subtree(p.tree, v), p.N()))
    ensures run[i].members[p.tree.root].passed == Some(SumIn(g, Shares(g, own, refused), Below(p.N()), p.N()))
  {
    var s := run[i];
    RunInv(p, run, i);
    HeardTree(p, s);
    var t, agg, share := AsHeard(p, s), Values(s), Shares(g, own, refused);
    hide Inv, IsRun;
    forall u: nat | u < p.N() ensures agg[u] == g.add(share[u], g.Sum(Reported(t, agg, u))) {
      RespondIsShare(g, own, refused, u, Reported(t, agg, u));
    }
    SubtreeSum(g, t, share, agg, v);
    RootSum(g, t, share, agg);
    SameSubtrees(p.tree, t, v);
  }

  lemma SameSubtrees(t: Tree, t': Tree, v: nat)
    requires t.Ok() && t'.Ok() && t'.parent == t.parent && t'.depth == t.depth
    ensures Subtree(t, v) == Subtree(t', v)
  {
    forall x: nat | x < t.N() ensures Under(t, x, v) == Under(t', x, v) { SameUnder(t, t', x, v); }
  }

  lemma {:induction false} SameUnder(t: Tree, t': Tree, x: nat, v: nat)
    requires t.Ok() && t'.Ok() && t'.parent == t.parent && t'.depth == t.depth && x < t.N()
    ensures Under(t, x, v) == Under(t', x, v)
    decreases t.depth[x]
  {
    if t.parent[x].Some? { SameUnder(t, t', t.parent[x].value, v); }
  }

  // ---------------------------------------------------------------- length of a run

  ghost function Active(s: State): set<nat> {
    set v | v in Below(|s.members|) && s.members[v].active
  }

  /** The value of c has reached its parent. */
  ghost predicate IsCounted(p: Pass, s: State, c: nat)
    requires p.tree.Ok() && |s.members| == p.N()
  {
    c < p.N() && c != p.tree.root && c in s.members[p.tree.parent[c].value].heard
  }

  ghost function Counted(p: Pass, s: State): set<nat>
    requires p.tree.Ok() && |s.members| == p.N()
  {
    set c | c in Below(p.N()) && IsCounted(p, s, c)
  }

  /** Deliveries so far, plus one. */
  ghost function Work(p: Pass, s: State): nat
    requires p.tree.Ok() && |s.members| == p.N()
  {
    |Active(s)| + |Counted(p, s)|
  }

  lemma StartWork(p: Pass)
    requires p.tree.Ok()
    ensures Work(p, Start(p)) == 1
  {
    assert Active(Start(p)) == {p.tree.root};
    assert Counted(p, Start(p)) == {};
  }

  lemma DownWork(p: Pass, s: State, v: nat, c: nat)
    requires Inv(p, s) && (v, c) in s.down && c < p.N()
    ensures Work(p, OnDown(p, s, v, c)) == Work(p, s) + 1
  {
    DownFacts(p, s, v, c);
    SizeOf(p, s);
    hide Inv;
    OneMoreActive(p, s, OnDown(p, s, v, c), c);
  }

  lemma OneMoreActive(p: Pass, s: State, s': State, c: nat)
    requires p.tree.Ok() && |s.members| == |s'.members| == p.N() && c < p.N() && !s.members[c].active
    requires s'.members == s.members[c := s'.members[c]]
    requires s'.members[c].active && s'.members[c].heard == s.members[c].heard
    ensures Work(p, s') == Work(p, s) + 1
  {
    assert Active(s') == Active(s) + {c} && c !in Active(s);
    assert Counted(p, s') == Counted(p, s);
  }

  lemma UpWork(p: Pass, s: State, c: nat, v: nat, x: Point)
    requires Inv(p, s) && (c, v, x) in s.up && v < p.N()
    ensures Work(p, OnUp(p, s, c, v, x)) == Work(p, s) + 1
  {
    UpFacts(p, s, c, v, x);
    SizeOf(p, s);
    hide Inv;
    OneMoreCounted(p, s, OnUp(p, s, c, v, x), v, c);
  }

  lemma OneMoreCounted(p: Pass, s: State, s': State, v: nat, c: nat)
    requires p.tree.Ok() && |s.members| == |s'.members| == p.N() && v < p.N() && c < p.N()
    requires p.tree.parent[c] == Some(v)
    requires s'.members == s.members[v := s'.members[v]] && s'.members[v].active == s.members[v].active
    requires s'.members[v].heard == s.members[v].heard + [c] && c !in s.members[v].heard
    ensures Work(p, s') == Work(p, s) + 1
  {
    hide IsCounted;
    assert Active(s') == Active(s);
    forall x: nat ensures IsCounted(p, s', x) <==> IsCounted(p, s, x) || x == c {
      CountedThen(p, s, s', v, c, x);
    }
    NotCounted(p, s, v, c);
    assert Counted(p, s') == Counted(p, s) + {c};
  }

  lemma CountedThen(p: Pass, s: State, s': State, v: nat, c: nat, x: nat)
    requires p.tree.Ok() && |s.members| == |s'.members| == p.N() && v < p.N() && c < p.N()
    requires p.tree.parent[c] == Some(v)
    requires s'.members == s.members[v := s'.members[v]] && s'.members[v].heard == s.members[v].heard + [c]
    ensures IsCounted(p, s', x) <==> IsCounted(p, s, x) || x == c
  {
  }

  lemma NotCounted(p: Pass, s: State, v: nat, c: nat)
    requires p.tree.Ok() && |s.members| == p.N() && v < p.N() && c < p.N() && p.tree.parent[c] == Some(v)
    requires c !in s.members[v].heard
    ensures c !in Counted(p, s)
  {
  }

  lemma {:induction false} RunWork(p: Pass, run: seq<State>, i: nat)
    requires IsRun(p, run) && i < |run|
    ensures |run[i].members| == p.N() && Work(p, run[i]) == i + 1
  {
    hide Inv, OnDown, OnUp, Work;
    if i == 0 {
      StartWork(p);
    } else {
      RunWork(p, run, i - 1);
      RunInv(p, run, i - 1);
      RunInv(p, run, i);
      var s, s' := run[i - 1], run[i];
      SizeOf(p, s');
      assert Next(p, s, s');
      if v: nat, c: nat :| c < p.N() && (v, c) in s.down && s' == OnDown(p, s, v, c) {
        DownWork(p, s, v, c);
      } else {
        var c: nat, v: nat, x: Point :| v < p.N() && (c, v, x) in s.up && s' == OnUp(p, s, c, v, x);
        UpWork(p, s, c, v, x);
      }
    }
  }

  lemma SizeOf(p: Pass, s: State)
    requires Inv(p, s)
    ensures |s.members| == p.N() && p.tree.Ok()
  {
  }

  /** The work of a pass is bounded, and exhausted exactly when the root has its value. */
  lemma WorkBound(p: Pass, s: State)
    requires Inv(p, s)
    ensures Work(p, s) <= 2 * p.N() - 1
    ensures s.members[p.tree.root].passed.Some? <==> Work(p, s) == 2 * p.N() - 1 && p.tree.root !in p.crashed
  {
    SizeOf(p, s);
    var all, rest := Below(p.N()), Below(p.N()) - {p.tree.root};
    assert all == rest + {p.tree.root};
    SubsetCard(Active(s), all);
    SubsetCard(Counted(p, s), rest);
    if s.members[p.tree.root].passed.Some? {
      AllWorked(p, s);
      assert MemberInv(p, s, p.tree.root);
    }
    if Active(s) == all && Counted(p, s) == rest && p.tree.root !in p.crashed {
      RootHeard(p, s);
    }
  }

  lemma AllWorked(p: Pass, s: State)
    requires Inv(p, s) && s.members[p.tree.root].passed.Some?
    ensures Active(s) == Below(p.N()) && Counted(p, s) == Below(p.N()) - {p.tree.root}
  {
    SizeOf(p, s);
    forall v: nat | v < p.N()
      ensures s.members[v].active && (v != p.tree.root ==> v in s.members[p.tree.parent[v].value].heard)
    {
      AllPassed(p, s, v);
      assert MemberInv(p, s, v);
      if v != p.tree.root {
        var u := p.tree.parent[v].value;
        AllPassed(p, s, u);
        assert v in p.tree.children[u];
        HeardAll(p, s, u, v);
      }
    }
    hide Inv;
  }

  lemma RootHeard(p: Pass, s: State)
    requires Inv(p, s) && Counted(p, s) == Below(p.N()) - {p.tree.root} && p.tree.root !in p.crashed
    ensures s.members[p.tree.root].passed.Some?
  {
    var r := p.tree.root;
    assert MemberInv(p, s, r);
    forall c: nat | c in p.tree.children[r] ensures c in s.members[r].heard {
      assert c in Counted(p, s) && IsCounted(p, s, c);
    }
    SameLength(p.tree.children[r], s.members[r].heard);
  }

  lemma SameLength(a: seq<nat>, b: seq<nat>)
    requires Distinct(a) && forall y :: y in a ==> y in b
    ensures |a| <= |b|
  {
    if a != [] {
      var k := |a| - 1;
      assert a[k] in a;
      ShorterList(a[..k], b, a[k]);
    }
  }

  /** Every pass takes two deliveries for each node but the root: no run is longer, and a root that
      does not crash has its value exactly after so many. */
  lemma PassLength(p: Pass, run: seq<State>, i: nat)
    requires IsRun(p, run) && i < |run|
    ensures |run| <= 2 * (p.N() - 1) + 1
    ensures |run[i].members| == p.N()
    ensures run[i].members[p.tree.root].passed.Some? <==> i == 2 * (p.N() - 1) && p.tree.root !in p.crashed
  {
    hide Inv, Work;
    RunWork(p, run, i);
    RunWork(p, run, |run| - 1);
    RunInv(p, run, i);
    RunInv(p, run, |run| - 1);
    WorkBound(p, run[i]);
    WorkBound(p, run[|run| - 1]);
  }

  /** With nothing in flight an active node without a value would wait for such a child, and so on. */
  lemma {:induction false} NobodyWaits(p: Pass, s: State, v: nat)
    requires Inv(p, s) && s.down == multiset{} && s.up == multiset{} && v < p.N() && s.members[v].active
    requires p.NoCrash()
    ensures s.members[v].passed.Some?
    decreases Highest(p.tree.depth) - p.tree.depth[v]
  {
    assert MemberInv(p, s, v);
    forall c: nat | c in p.tree.children[v] ensures c in s.members[v].heard {
      assert LinkInv(p, s, v, c);
      if c !in s.members[v].heard {
        NobodyWaits(p, s, c);
      }
    }
    SameLength(p.tree.children[v], s.members[v].heard);
  }

  ghost predicate CanGoOn(p: Pass, s: State) {
    exists s' :: Next(p, s, s')
  }

  /** No deadlock: if no node crashes, a run can go on exactly while the root has no value. */
  lemma StopsOnlyWhenDone(p: Pass, run: seq<State>)
    requires IsRun(p, run) && p.NoCrash()
    ensures |run[|run| - 1].members| == p.N()
    ensures CanGoOn(p, run[|run| - 1]) <==> run[|run| - 1].members[p.tree.root].passed.None?
  {
    hide Inv, Next;
    var s := run[|run| - 1];
    RunInv(p, run, |run| - 1);
    PassLength(p, run, |run| - 1);
    if CanGoOn(p, s) {
      var s' :| Next(p, s, s');
      PassLength(p, run + [s'], |run| - 1);
    } else {
      Stopped(p, s);
    }
  }

  /** Without a crash every run can be continued until the root has its value. */
  lemma {:induction false} CompletesFrom(p: Pass, run: seq<State>) returns (done: seq<State>)
    requires IsRun(p, run) && p.NoCrash()
    ensures IsRun(p, done) && run <= done
    ensures |done[|done| - 1].members| == p.N() && done[|done| - 1].members[p.tree.root].passed.Some?
    decreases 2 * p.N() - |run|
  {
    hide Next;
    done := run;
    PassLength(p, run, |run| - 1);
    StopsOnlyWhenDone(p, run);
    if run[|run| - 1].members[p.tree.root].passed.None? {
      var s' :| Next(p, run[|run| - 1], s');
      done := CompletesFrom(p, run + [s']);
    }
  }

  lemma Stopped(p: Pass, s: State)
    requires Inv(p, s) && !CanGoOn(p, s) && p.NoCrash()
    ensures s.members[p.tree.root].passed.Some?
  {
    if s.down != multiset{} || s.up != multiset{} { CanStep(p, s); }
    NobodyWaits(p, s, p.tree.root);
  }

  lemma CanStep(p: Pass, s: State)
    requires Inv(p, s) && (s.down != multiset{} || s.up != multiset{})
    ensures CanGoOn(p, s)
  {
    if m :| m in s.down {
      assert Next(p, s, OnDown(p, s, m.0, m.1));
    } else {
      var m :| m in s.up;
      assert Next(p, s, OnUp(p, s, m.0, m.1, m.2));
    }
  }

  /** The handlers of one node in such a pass. */
  class RoundNode {
    const p: Pass
    const me: nat
    var active: bool
    var heard: seq<nat>
    var values: seq<Point>
    var passed: Option<Point>

    function View(): Member
      reads this
    {
      Member(active, heard, values, passed)
    }

    constructor (p: Pass, me: nat)
      ensures this.p == p && this.me == me && View() == Idle()
    {
      this.p, this.me := p, me;
      active, heard, values, passed := false, [], [], None;
    }

    /** The message from the parent: sent on to dynamicChildren, or answered by a leaf. */
    method ReadDown() returns (down: set<(nat, nat)>, up: multiset<(nat, nat, Point)>)
      requires me < |p.tree.children| && me < |p.tree.parent| && View() == Idle()
      modifies this
      ensures View() == IfComplete(p, me, old(View()).(active := true))
      ensures down == Edges(me, p.tree.children[me]) && up == PassedUp(p, me, View())
    {
      active := true;
      down := Edges(me, p.tree.children[me]);
      up := multiset{};
      if p.tree.children[me] == [] && me !in p.crashed {
        passed := Some(p.combine(me, []));
        up := PassedUp(p, me, View());
      }
    }

    /** A child's commitment or response: kept until as many have come as there are children. */
    method ReadUp(c: nat, x: Point) returns (up: multiset<(nat, nat, Point)>)
      requires me < |p.tree.children| && me < |p.tree.parent| && passed == None
      modifies this
      ensures View() == IfComplete(p, me, old(View()).(heard := old(heard) + [c], values := old(values) + [x]))
      ensures up == PassedUp(p, me, View())
    {
      heard, values := heard + [c], values + [x];
      up := multiset{};
      if |values| == |p.tree.children[me]| && me !in p.crashed {
        passed := Some(p.combine(me, values));
        up := PassedUp(p, me, View());
      }
    }
  }
}
