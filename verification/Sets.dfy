/** Finite sets and lists of node names, and sums over lists. */
module Sets {

  /** The node names 0..n. */
  function Below(n: nat): (s: set<nat>)
    ensures forall i: nat :: i in s <==> i < n
    ensures |s| == n
  {
    if n == 0 then {} else Below(n - 1) + {n - 1}
  }

  lemma {:induction false} SubsetCard(a: set<nat>, b: set<nat>)
    requires a <= b
    ensures |a| <= |b|
    ensures |a| == |b| ==> a == b
    decreases a
  {
    if a != {} {
      var x :| x in a;
      SubsetCard(a - {x}, b - {x});
    }
  }

  ghost predicate Distinct(s: seq<nat>) {
    forall i, j :: 0 <= i < j < |s| ==> s[i] != s[j]
  }

  ghost function Elems(s: seq<nat>): (e: set<nat>)
    ensures forall x :: x in e <==> x in s
  {
    set x | x in s
  }

  lemma {:induction false} ListCard(s: seq<nat>)
    requires Distinct(s)
    ensures |Elems(s)| == |s|
  {
    if s != [] {
      var rest, last := s[..|s| - 1], s[|s| - 1];
      ListCard(rest);
      assert s == rest + [last];
      assert Elems(s) == Elems(rest) + {last} && last !in Elems(rest);
    }
  }

  ghost function Highest(f: seq<nat>): (m: nat)
    ensures forall i :: 0 <= i < |f| ==> f[i] <= m
  {
    if f == [] then 0 else var m := Highest(f[..|f| - 1]); if f[|f| - 1] > m then f[|f| - 1] else m
  }

  ghost function Total(f: seq<nat>): nat {
    if f == [] then 0 else Total(f[..|f| - 1]) + f[|f| - 1]
  }

  lemma {:induction false} TotalUpdate(f: seq<nat>, i: nat, x: nat)
    requires i < |f|
    ensures Total(f[i := x]) + f[i] == Total(f) + x
    decreases |f|
  {
    var g, k := f[i := x], |f| - 1;
    if i == k {
      assert g[..k] == f[..k];
    } else {
      TotalUpdate(f[..k], i, x);
      assert g[..k] == f[..k][i := x];
    }
  }

  lemma {:induction false} TotalConst(f: seq<nat>, c: nat)
    requires forall i :: 0 <= i < |f| ==> f[i] == c
    ensures Total(f) == c * |f|
  {
    if f != [] { TotalConst(f[..|f| - 1], c); }
  }

  lemma {:induction false} TotalMono(f: seq<nat>, g: seq<nat>)
    requires |f| == |g| && forall i :: 0 <= i < |f| ==> f[i] <= g[i]
    ensures Total(f) <= Total(g)
  {
    if f != [] { TotalMono(f[..|f| - 1], g[..|g| - 1]); }
  }

  lemma {:induction false} TotalMinus(f: seq<nat>, g: seq<nat>, h: seq<nat>)
    requires |f| == |g| == |h| && forall i :: 0 <= i < |f| ==> f[i] + g[i] == h[i]
    ensures Total(f) + Total(g) == Total(h)
  {
    if f != [] { TotalMinus(f[..|f| - 1], g[..|g| - 1], h[..|h| - 1]); }
  }

  /** The messages v sends to the targets. */
  function Pairs(v: nat, targets: set<nat>): set<(nat, nat)> {
    set w | w in targets :: (v, w)
  }

  lemma {:induction false} PairsCard(v: nat, t: set<nat>)
    ensures |Pairs(v, t)| == |t|
    decreases t
  {
    if t == {} {
      assert Pairs(v, t) == {};
    } else {
      var w :| w in t;
      PairsCard(v, t - {w});
      assert Pairs(v, t) == Pairs(v, t - {w}) + {(v, w)};
    }
  }
}
