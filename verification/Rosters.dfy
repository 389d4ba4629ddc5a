/**
 The roster of a tree: the root first, everyone else in the order of the identity strings,
 whatever order the map of tree nodes was read in.
 */
module Rosters {

  /** Go's order on strings. */
  predicate Before(a: string, b: string) {
    b != [] && (a == [] || a[0] < b[0] || (a[0] == b[0] && Before(a[1..], b[1..])))
  }

  lemma {:induction false} Trichotomy(a: string, b: string)
    ensures a == b || Before(a, b) || Before(b, a)
    ensures !(Before(a, b) && Before(b, a)) && !Before(a, a)
    decreases |a|
  {
    if a != [] {
      Trichotomy(a[1..], a[1..]);
      if b != [] {
        Trichotomy(a[1..], b[1..]);
        assert a == [a[0]] + a[1..] && b == [b[0]] + b[1..];
      }
    }
  }

  lemma {:induction false} BeforeTrans(a: string, b: string, c: string)
    requires !Before(b, a) && !Before(c, b)
    ensures !Before(c, a)
    decreases |a|
  {
    if a != [] && b != [] && c != [] && a[0] == b[0] == c[0] {
      BeforeTrans(a[1..], b[1..], c[1..]);
    }
  }

  ghost predicate Ascending(ids: seq<string>, s: seq<nat>) {
    && (forall i :: 0 <= i < |s| ==> s[i] < |ids|)
    && (forall i, j :: 0 <= i < j < |s| ==> !Before(ids[s[j]], ids[s[i]]))
  }

  /** A sorting routine in place of sort.Sort. */
  method Sorted(ids: seq<string>, s: seq<nat>) returns (r: seq<nat>)
    requires forall x :: x in s ==> x < |ids|
    ensures multiset(r) == multiset(s) && Ascending(ids, r)
  {
    r := [];
    for k := 0 to |s|
      invariant multiset(r) == multiset(s[..k]) && Ascending(ids, r)
    {
      assert s[..k + 1] == s[..k] + [s[k]];
      assert s[k] in s;
      r := Inserted(ids, r, s[k]);
    }
    assert s[..|s|] == s;
  }

  method Inserted(ids: seq<string>, s: seq<nat>, x: nat) returns (r: seq<nat>)
    requires Ascending(ids, s) && x < |ids|
    ensures multiset(r) == multiset(s) + multiset{x} && Ascending(ids, r)
  {
    var i := |s|;
    while i > 0 && Before(ids[x], ids[s[i - 1]])
      invariant 0 <= i <= |s|
      invariant forall j :: i <= j < |s| ==> Before(ids[x], ids[s[j]])
    {
      i := i - 1;
    }
    r := s[..i] + [x] + s[i..];
    assert s == s[..i] + s[i..];
    InsertAt(ids, s, x, i);
  }

  lemma InsertAt(ids: seq<string>, s: seq<nat>, x: nat, i: nat)
    requires Ascending(ids, s) && x < |ids| && i <= |s|
    requires i > 0 ==> !Before(ids[x], ids[s[i - 1]])
    requires forall j :: i <= j < |s| ==> Before(ids[x], ids[s[j]])
    ensures Ascending(ids, s[..i] + [x] + s[i..])
  {
    hide Before;
    var r := s[..i] + [x] + s[i..];
    forall j, k | 0 <= j < k < |r| ensures !Before(ids[r[k]], ids[r[j]]) {
      if k == i {
        if j < i - 1 { BeforeTrans(ids[s[j]], ids[s[i - 1]], ids[x]); }
      } else if j == i {
        Trichotomy(ids[x], ids[r[k]]);
      }
    }
  }

  /** What the roster of a tree with these members must be. */
  ghost predicate IsRoster(ids: seq<string>, members: multiset<nat>, root: nat, roster: seq<nat>) {
    roster != [] && roster[0] == root && multiset(roster) == members && Ascending(ids, roster[1..])
  }

  /** buildOnetTree up to the roster; order is the order in which the tree map was read. */
  method BuildRoster(ids: seq<string>, order: seq<nat>, root: nat) returns (roster: seq<nat>)
    requires root in order && forall x :: x in order ==> x < |ids|
    ensures IsRoster(ids, multiset(order), root, roster)
  {
    hide Before, Ascending;
    var rootIdx: nat := 0;
    for i := 0 to |order|
      invariant rootIdx < |order| && (root in order[..i] ==> order[rootIdx] == root)
    {
      if order[i] == root {
        rootIdx := i;
      }
      assert order[..i + 1] == order[..i] + [order[i]];
    }
    assert order[..|order|] == order;
    roster := order[0 := root][rootIdx := order[0]];
    RootToFront(order, rootIdx, roster);
    var aux := Sorted(ids, roster[1..]);
    roster := [root] + aux;
    assert roster[1..] == aux;
  }

  lemma RootToFront(s: seq<nat>, i: nat, r: seq<nat>)
    requires i < |s| && r == s[0 := s[i]][i := s[0]]
    ensures r == [s[i]] + r[1..] && multiset(r) == multiset(s)
    ensures forall x :: x in r[1..] ==> x in s
  {
    assert r == [r[0]] + r[1..];
    forall x | x in r[1..] ensures x in s { assert x in multiset(r); assert x in multiset(s); }
  }

  ghost predicate DistinctIds(ids: seq<string>) {
    forall i, j :: 0 <= i < j < |ids| ==> ids[i] != ids[j]
  }

  /** Two ascending lists of the same members are the same list. */
  lemma {:induction false} AscendingUnique(ids: seq<string>, s: seq<nat>, t: seq<nat>)
    requires DistinctIds(ids) && Ascending(ids, s) && Ascending(ids, t) && multiset(s) == multiset(t)
    ensures s == t
    decreases |s|
  {
    hide Before, Ascending, DistinctIds;
    assert |multiset(s)| == |s| && |multiset(t)| == |t|;
    if s != [] {
      SameHead(ids, s, t);
      SameTails(ids, s, t);
      AscendingUnique(ids, s[1..], t[1..]);
      assert s == [s[0]] + s[1..] && t == [t[0]] + t[1..];
    }
  }

  lemma SameTails(ids: seq<string>, s: seq<nat>, t: seq<nat>)
    requires s != [] && t != [] && s[0] == t[0] && multiset(s) == multiset(t) && Ascending(ids, s) && Ascending(ids, t)
    ensures multiset(s[1..]) == multiset(t[1..]) && Ascending(ids, s[1..]) && Ascending(ids, t[1..])
  {
    TailMultiset(s);
    TailMultiset(t);
    TailAscending(ids, s);
    TailAscending(ids, t);
    hide Before, Ascending;
  }

  lemma TailMultiset(s: seq<nat>)
    requires s != []
    ensures multiset(s[1..]) == multiset(s) - multiset{s[0]}
  {
    assert s == [s[0]] + s[1..];
  }

  lemma TailAscending(ids: seq<string>, s: seq<nat>)
    requires s != [] && Ascending(ids, s)
    ensures Ascending(ids, s[1..])
  {
    hide Before;
    var t := s[1..];
    forall i, j | 0 <= i < j < |t| ensures !Before(ids[t[j]], ids[t[i]]) {
      assert !Before(ids[s[j + 1]], ids[s[i + 1]]);
    }
  }

  lemma SameHead(ids: seq<string>, s: seq<nat>, t: seq<nat>)
    requires DistinctIds(ids) && Ascending(ids, s) && Ascending(ids, t) && multiset(s) == multiset(t) && s != []
    requires t != []
    ensures s[0] == t[0]
  {
    hide Before;
    assert s[0] in multiset(t) && t[0] in multiset(s);
    var i :| 0 <= i < |s| && s[i] == t[0];
    var j :| 0 <= j < |t| && t[j] == s[0];
    Trichotomy(ids[s[0]], ids[t[0]]);
  }

  /** Roster determinism: every reading order of the tree map gives the same roster. */
  lemma RosterUnique(ids: seq<string>, members: multiset<nat>, root: nat, r1: seq<nat>, r2: seq<nat>)
    requires DistinctIds(ids) && IsRoster(ids, members, root, r1) && IsRoster(ids, members, root, r2)
    ensures r1 == r2
  {
    assert r1 == [root] + r1[1..] && r2 == [root] + r2[1..];
    assert multiset(r1[1..]) == members - multiset{root} == multiset(r2[1..]);
    AscendingUnique(ids, r1[1..], r2[1..]);
  }
}
