/**
 Collective signatures with exceptions: BFTSignature.Verify, the exception threshold, and the
 handlers of the commit round.
 */
module Signing {
  import opened Sets
  import opened Locality
  import opened Group
  import opened Aggregation
  import Rounds

  /** The suite: points, the base point of prime order, scalar multiplication, the hash that turns
      (commitment, aggregate key, message) into a challenge, and the digest of a message, which the
      prepare round signs in its place. */
  datatype Suite = Suite(g: Abelian, base: Point, mul: (int, Point) -> Point, order: nat,
                         hash: (Point, Point, string) -> int, digest: string -> string)
  {
    ghost predicate MulAdds(j: int, k: int, p: Point) { mul(j + k, p) == g.add(mul(j, p), mul(k, p)) }

    ghost predicate MulDistributes(k: int, p: Point, q: Point) { mul(k, g.add(p, q)) == g.add(mul(k, p), mul(k, q)) }

    ghost predicate MulComposes(j: int, k: int, p: Point) { mul(j * k, p) == mul(j, mul(k, p)) }

    ghost predicate MulZero(k: int) { mul(k, g.zero) == g.zero && mul(0, base) == g.zero }

    /** Multiples of the base repeat with the order of the group. */
    ghost predicate Generates(j: int, k: int) { order > 0 && (mul(j, base) == mul(k, base) <==> (j - k) % order == 0) }

    ghost predicate Laws() {
      && g.Laws() && order > 1
      && (forall j, k, p :: MulAdds(j, k, p))
      && (forall k, p, q :: MulDistributes(k, p, q))
      && (forall j, k, p :: MulComposes(j, k, p))
      && (forall k :: MulZero(k))
      && (forall j, k :: Generates(j, k))
    }

    function Minus(p: Point, q: Point): Point { g.add(p, g.neg(q)) }
  }

  datatype Exception = Exception(index: int, commitment: Point)

  /** The byte string of a signature, as far as Verify looks into it. */
  datatype SigBytes = NilSig | TooShort | NoPoint | Sig(commit: Point, response: int)

  datatype BFTSignature = BFTSignature(sig: SigBytes, msg: Option<string>, exceptions: seq<Exception>)

  datatype Verdict = Valid | Invalid | IndexPanic

  ghost predicate IndicesOk(exceptions: seq<Exception>, n: nat) {
    forall i :: 0 <= i < |exceptions| ==> 0 <= exceptions[i].index < n
  }

  function Commitments(exceptions: seq<Exception>): seq<Point> {
    seq(|exceptions|, i requires 0 <= i < |exceptions| => exceptions[i].commitment)
  }

  ghost function Keys(publics: seq<Point>, exceptions: seq<Exception>): seq<Point>
    requires IndicesOk(exceptions, |publics|)
  {
    seq(|exceptions|, i requires 0 <= i < |exceptions| => publics[exceptions[i].index])
  }

  /** The equation with the keys and commitments of the exceptions taken out. */
  ghost predicate ReducedEquation(s: Suite, publics: seq<Point>, commit: Point, response: int, msg: string,
                                  exceptions: seq<Exception>)
    requires IndicesOk(exceptions, |publics|)
  {
    var k := s.hash(commit, s.g.Sum(publics), msg);
    s.mul(response, s.base) ==
      s.g.add(s.Minus(commit, s.g.Sum(Commitments(exceptions))),
          s.mul(k, s.Minus(s.g.Sum(publics), s.g.Sum(Keys(publics, exceptions)))))
  }

  /** A well-formed signature that satisfies the equation. */
  ghost predicate Acceptable(s: Suite, publics: seq<Point>, bs: BFTSignature) {
    && bs.sig.Sig? && bs.msg.Some? && IndicesOk(bs.exceptions, |publics|)
    && ReducedEquation(s, publics, bs.sig.commit, bs.sig.response, bs.msg.value, bs.exceptions)
  }

  /** Verify accepts exactly the well-formed signatures that satisfy the reduced-key equation; an
      exception index outside the roster panics before the signature is looked at. */
  method Verify(s: Suite, publics: seq<Point>, bs: BFTSignature) returns (r: Verdict)
    requires s.Laws()
    ensures r == Valid <==> Acceptable(s, publics, bs)
    ensures r == IndexPanic <==> bs.sig != NilSig && bs.msg.Some? && !IndicesOk(bs.exceptions, |publics|)
  {
    if bs.sig == NilSig || bs.msg.None? {
      return Invalid;
    }
    var aggPublic := s.g.zero;
    for i := 0 to |publics|
      invariant aggPublic == s.g.Sum(publics[..i])
    {
      assert publics[..i + 1][..i] == publics[..i];
      aggPublic := s.g.add(aggPublic, publics[i]);
    }
    assert publics[..|publics|] == publics;
    var aggReduced, aggExCommit := aggPublic, s.g.zero;
    ghost var keys: seq<Point> := [];
    MinusZero(s, aggPublic);
    for i := 0 to |bs.exceptions|
      invariant IndicesOk(bs.exceptions[..i], |publics|)
      invariant keys == Keys(publics, bs.exceptions[..i])
      invariant aggExCommit == s.g.Sum(Commitments(bs.exceptions)[..i])
      invariant aggReduced == s.Minus(aggPublic, s.g.Sum(keys))
    {
      var ex := bs.exceptions[i];
      assert Commitments(bs.exceptions)[..i + 1][..i] == Commitments(bs.exceptions)[..i];
      aggExCommit := s.g.add(aggExCommit, ex.commitment);
      if !(0 <= ex.index < |publics|) {
        assert !IndicesOk(bs.exceptions, |publics|);
        return IndexPanic;
      }
      MinusStep(s, aggPublic, s.g.Sum(keys), publics[ex.index]);
      aggReduced := s.Minus(aggReduced, publics[ex.index]);
      assert (keys + [publics[ex.index]])[..i] == keys;
      keys := keys + [publics[ex.index]];
    }
    assert bs.exceptions[..|bs.exceptions|] == bs.exceptions;
    assert Commitments(bs.exceptions)[..|bs.exceptions|] == Commitments(bs.exceptions);
    if !bs.sig.Sig? {
      return Invalid;
    }
    var k := s.hash(bs.sig.commit, aggPublic, bs.msg.value);
    var left := s.g.add(s.mul(bs.sig.response, s.base), s.mul(k, s.g.neg(aggReduced)));
    var right := s.Minus(bs.sig.commit, aggExCommit);
    MoveOver(s, s.mul(bs.sig.response, s.base), k, aggReduced, right);
    r := if left == right then Valid else Invalid;
  }

  lemma MinusZero(s: Suite, a: Point)
    requires s.Laws()
    ensures s.Minus(a, s.g.zero) == a
  {
    assert s.g.Cancels(s.g.zero);
    ZeroLeft(s.g, s.g.neg(s.g.zero));
    assert s.g.Unit(a);
  }

  /** -(p + q) = -p - q */
  lemma NegSum(g: Abelian, p: Point, q: Point)
    requires g.Laws()
    ensures g.neg(g.add(p, q)) == g.add(g.neg(p), g.neg(q))
  {
    var n := g.add(g.neg(p), g.neg(q));
    // (p + q) + n = 0
    assert g.add(g.add(p, q), n) == g.zero by {
      assert g.Associates(g.add(p, q), g.neg(p), g.neg(q));
      SwapLast(g, p, q, g.neg(p));
      assert g.Cancels(p) && g.Cancels(q);
      ZeroLeft(g, q);
    }
    Inverse(g, g.add(p, q), n);
  }

  /** An element that adds up with a to zero is -a. */
  lemma Inverse(g: Abelian, a: Point, b: Point)
    requires g.Laws() && g.add(a, b) == g.zero
    ensures b == g.neg(a)
  {
    SwapLast(g, a, b, g.neg(a));
    assert g.Cancels(a);
    ZeroLeft(g, b);
    ZeroLeft(g, g.neg(a));
  }

  lemma MinusStep(s: Suite, a: Point, p: Point, q: Point)
    requires s.Laws()
    ensures s.Minus(s.Minus(a, p), q) == s.Minus(a, s.g.add(p, q))
  {
    NegSum(s.g, p, q);
    assert s.g.Associates(a, s.g.neg(p), s.g.neg(q));
  }

  /** rB + k(-A) = R exactly when rB = R + kA. */
  lemma MoveOver(s: Suite, rb: Point, k: int, a: Point, right: Point)
    requires s.Laws()
    ensures s.g.add(rb, s.mul(k, s.g.neg(a))) == right <==> rb == s.g.add(right, s.mul(k, a))
  {
    var g, ka, na := s.g, s.mul(k, a), s.mul(k, s.g.neg(a));
    assert g.add(ka, na) == g.zero by {
      assert s.MulDistributes(k, a, g.neg(a)) && g.Cancels(a) && s.MulZero(k);
    }
    assert g.add(g.add(rb, na), ka) == rb by {
      assert g.Associates(rb, na, ka) && g.Commutes(na, ka) && g.Unit(rb);
    }
    assert g.add(g.add(right, ka), na) == right by {
      assert g.Associates(right, ka, na) && g.Unit(right);
    }
  }

  ghost function SumInt(f: seq<int>, S: set<nat>, k: nat): int
    requires k <= |f|
  {
    if k == 0 then 0 else SumInt(f, S, k - 1) + if k - 1 in S then f[k - 1] else 0
  }

  lemma {:induction false} SumIntDisjoint(f: seq<int>, A: set<nat>, B: set<nat>, k: nat)
    requires k <= |f| && A !! B
    ensures SumInt(f, A + B, k) == SumInt(f, A, k) + SumInt(f, B, k)
  {
    if k > 0 { SumIntDisjoint(f, A, B, k - 1); }
  }

  /** A signer: secret key and nonce. */
  datatype Signer = Signer(secret: int, nonce: int)

  /** A round of n signers.  Refusers have committed but leave their response out; offline signers
      have done neither. */
  datatype Round = Round(suite: Suite, signers: seq<Signer>, refused: set<nat>, offline: set<nat>, msg: string)
  {
    function N(): nat { |signers| }

    function Publics(): seq<Point> {
      seq(N(), i requires 0 <= i < N() => suite.mul(signers[i].secret, suite.base))
    }

    function Nonces(): seq<Point> {
      seq(N(), i requires 0 <= i < N() =>
          if i in offline then suite.g.zero else suite.mul(signers[i].nonce, suite.base))
    }

    /** The aggregate commitment: everyone who is online. */
    ghost function Commit(): Point { SumIn(suite.g, Nonces(), Below(N()), N()) }

    ghost function Challenge(): int { suite.hash(Commit(), suite.g.Sum(Publics()), msg) }

    function Responses(k: int): seq<int> {
      seq(N(), i requires 0 <= i < N() => signers[i].nonce + k * signers[i].secret)
    }

    ghost function Honest(): set<nat> { Below(N()) - refused - offline }

    /** The aggregate response: everyone who signed. */
    ghost function Response(): int { SumInt(Responses(Challenge()), Honest(), N()) }
  }

  /** A list of the given signers in some order, each with its commitment; null for offline ones. */
  ghost predicate Lists(r: Round, exceptions: seq<Exception>, who: set<nat>) {
    && IndicesOk(exceptions, r.N())
    && (forall i, j :: 0 <= i < j < |exceptions| ==> exceptions[i].index != exceptions[j].index)
    && (forall i :: 0 <= i < |exceptions| ==> exceptions[i].index in who)
    && (forall x: nat :: x in who ==> x < r.N() && exists i :: 0 <= i < |exceptions| && exceptions[i].index == x)
    && (forall i :: 0 <= i < |exceptions| ==> exceptions[i].commitment == r.Nonces()[exceptions[i].index])
  }

  ghost function Listed(exceptions: seq<Exception>, k: nat): set<nat>
    requires k <= |exceptions| && forall i :: 0 <= i < |exceptions| ==> exceptions[i].index >= 0
  {
    if k == 0 then {} else Listed(exceptions, k - 1) + {exceptions[k - 1].index}
  }

  lemma {:induction false} ListedMember(exceptions: seq<Exception>, k: nat, x: nat)
    requires k <= |exceptions| && forall i :: 0 <= i < |exceptions| ==> exceptions[i].index >= 0
    ensures x in Listed(exceptions, k) <==> exists i :: 0 <= i < k && exceptions[i].index == x
  {
    if k > 0 { ListedMember(exceptions, k - 1, x); }
  }

  /** A list of values f[index] adds up to the sum of f over the indices. */
  lemma {:induction false} ListSum(g: Abelian, f: seq<Point>, exceptions: seq<Exception>, list: seq<Point>, k: nat)
    requires g.Laws() && IndicesOk(exceptions, |f|) && |list| == |exceptions| && k <= |list|
    requires forall i, j :: 0 <= i < j < |exceptions| ==> exceptions[i].index != exceptions[j].index
    requires forall i :: 0 <= i < |list| ==> list[i] == f[exceptions[i].index]
    ensures g.Sum(list[..k]) == SumIn(g, f, Listed(exceptions, k), |f|)
  {
    if k == 0 {
      SumEmpty(g, f, {}, |f|);
    } else {
      ListSum(g, f, exceptions, list, k - 1);
      var x: nat := exceptions[k - 1].index;
      ListedMember(exceptions, k - 1, x);
      SumDisjoint(g, f, Listed(exceptions, k - 1), {x}, |f|);
      SumSingle(g, f, x, |f|);
      assert list[..k][..k - 1] == list[..k - 1];
    }
  }

  lemma {:induction false} SumAll(g: Abelian, f: seq<Point>, k: nat)
    requires k <= |f|
    ensures g.Sum(f[..k]) == SumIn(g, f, Below(|f|), k)
  {
    if k > 0 {
      SumAll(g, f, k - 1);
      assert f[..k][..k - 1] == f[..k - 1];
    }
  }

  /** Taking the listed values out of the sum over everyone leaves the sum over the others. */
  lemma SumWithout(s: Suite, f: seq<Point>, r: Round, exceptions: seq<Exception>, list: seq<Point>, who: set<nat>)
    requires s.Laws() && |f| == r.N() && Lists(r, exceptions, who) && |list| == |exceptions|
    requires forall i :: 0 <= i < |list| ==> list[i] == f[exceptions[i].index]
    ensures s.Minus(SumIn(s.g, f, Below(|f|), |f|), s.g.Sum(list)) == SumIn(s.g, f, Below(|f|) - who, |f|)
  {
    var g, all := s.g, Below(|f|);
    ListSum(g, f, exceptions, list, |list|);
    assert list[..|list|] == list;
    forall x: nat ensures x in Listed(exceptions, |list|) <==> x in who { ListedMember(exceptions, |list|, x); }
    assert Listed(exceptions, |list|) == who;
    assert all == (all - who) + who;
    SumDisjoint(g, f, all - who, who, |f|);
    var h, e := SumIn(g, f, all - who, |f|), SumIn(g, f, who, |f|);
    assert g.Associates(h, e, g.neg(e)) && g.Cancels(e) && g.Unit(h);
  }

  /** r B = sum of nonce points + k times the sum of keys, for any set of online signers. */
  lemma {:induction false} ResponsesMatch(r: Round, k: int, S: set<nat>, n: nat)
    requires r.suite.Laws() && n <= r.N() && S !! r.offline
    ensures var s := r.suite;
            s.mul(SumInt(r.Responses(k), S, n), s.base)
                == s.g.add(SumIn(s.g, r.Nonces(), S, n), s.mul(k, SumIn(s.g, r.Publics(), S, n)))
  {
    var s, g := r.suite, r.suite.g;
    if n == 0 {
      assert s.MulZero(k);
      ZeroLeft(g, g.zero);
    } else {
      ResponsesMatch(r, k, S, n - 1);
      if n - 1 in S {
        var v, x := r.signers[n - 1].nonce, r.signers[n - 1].secret;
        var a, b := SumIn(g, r.Nonces(), S, n - 1), SumIn(g, r.Publics(), S, n - 1);
        var p, q := s.mul(v, s.base), s.mul(x, s.base);
        assert s.MulAdds(SumInt(r.Responses(k), S, n - 1), v + k * x, s.base) && s.MulAdds(v, k * x, s.base)
            && s.MulComposes(k, x, s.base);
        assert s.MulDistributes(k, b, q);
        FourSum(g, a, s.mul(k, b), p, s.mul(k, q));
      }
    }
  }

  /** (a + b) + (c + d) = (a + c) + (b + d) */
  lemma FourSum(g: Abelian, a: Point, b: Point, c: Point, d: Point)
    requires g.Laws()
    ensures g.add(g.add(a, b), g.add(c, d)) == g.add(g.add(a, c), g.add(b, d))
  {
    assert g.Associates(g.add(a, b), c, d);
    SwapLast(g, a, b, c);
    assert g.Associates(g.add(a, c), b, d);
  }

  /** With everyone of who listed as an exception, the equation says: rB = sum of the other nonces
      plus k times the other keys. */
  lemma EquationFor(r: Round, exceptions: seq<Exception>, who: set<nat>, response: int)
    requires r.suite.Laws() && Lists(r, exceptions, who) && IndicesOk(exceptions, |r.Publics()|)
    ensures var s, rest := r.suite, Below(r.N()) - who;
            ReducedEquation(s, r.Publics(), r.Commit(), response, r.msg, exceptions) <==>
            s.mul(response, s.base) ==
              s.g.add(SumIn(s.g, r.Nonces(), rest, r.N()), s.mul(r.Challenge(), SumIn(s.g, r.Publics(), rest, r.N())))
  {
    var s, P := r.suite, r.Publics();
    SumAll(s.g, P, |P|);
    assert P[..|P|] == P;
    SumWithout(s, P, r, exceptions, Keys(P, exceptions), who);
    SumWithout(s, r.Nonces(), r, exceptions, Commitments(exceptions), who);
  }

  lemma SameResponse(s: Suite, x: int, y: int)
    requires s.Laws()
    ensures s.mul(x, s.base) == s.mul(y, s.base) <==> (x - y) % s.order == 0
  {
    assert s.Generates(x, y);
  }

  lemma ListsIndices(r: Round, exceptions: seq<Exception>, who: set<nat>)
    requires Lists(r, exceptions, who)
    ensures IndicesOk(exceptions, |r.Publics()|)
  {
  }

  /** Signature verification with exceptions: for every set of refusers and offline signers, listed
      in any order, Verify's equation accepts the response exactly when it equals, modulo the group
      order, the sum of the responses of those who signed. */
  lemma AcceptsHonest(r: Round, exceptions: seq<Exception>, response: int)
    requires r.suite.Laws() && r.refused + r.offline <= Below(r.N()) && Lists(r, exceptions, r.refused + r.offline)
    ensures IndicesOk(exceptions, |r.Publics()|)
    ensures ReducedEquation(r.suite, r.Publics(), r.Commit(), response, r.msg, exceptions) <==>
              (response - r.Response()) % r.suite.order == 0
  {
    hide ReducedEquation, SumIn, SumInt, Lists;
    ListsIndices(r, exceptions, r.refused + r.offline);
    EquationFor(r, exceptions, r.refused + r.offline, response);
    assert Below(r.N()) - (r.refused + r.offline) == r.Honest();
    ResponsesMatch(r, r.Challenge(), r.Honest(), r.N());
    SameResponse(r.suite, response, r.Response());
  }

  function Secrets(signers: seq<Signer>): seq<int> {
    seq(|signers|, i requires 0 <= i < |signers| => signers[i].secret)
  }

  /** The aggregate key is the sum of the secrets times the base. */
  lemma {:induction false} KeyOfSecrets(r: Round, k: nat)
    requires r.suite.Laws() && k <= r.N()
    ensures SumIn(r.suite.g, r.Publics(), Below(r.N()), k)
            == r.suite.mul(SumInt(Secrets(r.signers), Below(r.N()), k), r.suite.base)
  {
    if k == 0 {
      assert r.suite.MulZero(0);
    } else {
      KeyOfSecrets(r, k - 1);
      assert r.suite.MulAdds(SumInt(Secrets(r.signers), Below(r.N()), k - 1), r.signers[k - 1].secret, r.suite.base);
    }
  }

  /** a + x = a + y exactly if x = y. */
  lemma CancelsLeft(g: Abelian, a: Point, x: Point, y: Point)
    requires g.Laws()
    ensures g.add(a, x) == g.add(a, y) <==> x == y
  {
    if g.add(a, x) == g.add(a, y) {
      assert g.Commutes(a, x) && g.Commutes(a, y);
      assert g.Associates(x, a, g.neg(a)) && g.Associates(y, a, g.neg(a)) && g.Cancels(a) && g.Unit(x) && g.Unit(y);
    }
  }

  /** Without exceptions the equation reads rB = C + kP, with k the hash of commitment, key and message. */
  lemma PlainEquation(s: Suite, publics: seq<Point>, commit: Point, response: int, msg: string)
    requires s.Laws()
    ensures ReducedEquation(s, publics, commit, response, msg, []) <==>
            s.mul(response, s.base) == s.g.add(commit, s.mul(s.hash(commit, s.g.Sum(publics), msg), s.g.Sum(publics)))
  {
    MinusZero(s, commit);
    MinusZero(s, s.g.Sum(publics));
    assert Keys(publics, []) == [] && Commitments([]) == [];
  }

  /** The signature is bound to the message: presented with another one it is accepted exactly if the
      two hashes differ by something that the sum of the secrets turns into a multiple of the order. */
  lemma MessageBinds(r: Round, msg': string)
    requires r.suite.Laws() && r.refused == {} && r.offline == {}
    ensures var s, C, P := r.suite, r.Commit(), r.suite.g.Sum(r.Publics());
            ReducedEquation(s, r.Publics(), C, r.Response(), msg', []) <==>
            (s.hash(C, P, msg') - s.hash(C, P, r.msg)) * SumInt(Secrets(r.signers), Below(r.N()), r.N()) % s.order == 0
  {
    hide ReducedEquation, SumIn, SumInt;
    var s, C, P := r.suite, r.Commit(), r.suite.g.Sum(r.Publics());
    var k, k' := s.hash(C, P, r.msg), s.hash(C, P, msg');
    KeyIs(r);
    PlainEquation(s, r.Publics(), C, r.Response(), msg');
    HonestEquation(r);
    CancelsLeft(s.g, C, s.mul(k, P), s.mul(k', P));
    SameMultiple(s, k', k, SumInt(Secrets(r.signers), Below(r.N()), r.N()));
  }

  lemma SameMultiple(s: Suite, j: int, k: int, x: int)
    requires s.Laws()
    ensures s.mul(j, s.mul(x, s.base)) == s.mul(k, s.mul(x, s.base)) <==> (j - k) * x % s.order == 0
  {
    assert s.MulComposes(j, x, s.base) && s.MulComposes(k, x, s.base);
    assert s.Generates(j * x, k * x);
    Distributes(j, k, x);
  }

  lemma Distributes(j: int, k: int, x: int)
    ensures j * x - k * x == (j - k) * x
  {
  }

  lemma KeyIs(r: Round)
    requires r.suite.Laws()
    ensures r.suite.g.Sum(r.Publics()) == r.suite.mul(SumInt(Secrets(r.signers), Below(r.N()), r.N()), r.suite.base)
  {
    var P := r.Publics();
    SumAll(r.suite.g, P, |P|);
    assert P[..|P|] == P;
    KeyOfSecrets(r, r.N());
  }

  /** The response of a round in which everyone signs satisfies the equation for its own message. */
  lemma HonestEquation(r: Round)
    requires r.suite.Laws() && r.refused == {} && r.offline == {}
    ensures var s, C, P := r.suite, r.Commit(), r.suite.g.Sum(r.Publics());
            s.mul(r.Response(), s.base) == s.g.add(C, s.mul(s.hash(C, P, r.msg), P))
  {
    hide ReducedEquation, SumIn, SumInt;
    assert r.refused + r.offline == {};
    AcceptsHonest(r, [], r.Response());
    PlainEquation(r.suite, r.Publics(), r.Commit(), r.Response(), r.msg);
  }

  /** So Verify does not accept it for another message whose hash differs in this sense. */
  lemma OtherMessageRejected(r: Round, msg': string)
    requires r.suite.Laws() && r.refused == {} && r.offline == {}
    requires var s, C, P := r.suite, r.Commit(), r.suite.g.Sum(r.Publics());
             (s.hash(C, P, msg') - s.hash(C, P, r.msg)) * SumInt(Secrets(r.signers), Below(r.N()), r.N()) % s.order != 0
    ensures !Acceptable(r.suite, r.Publics(), BFTSignature(Sig(r.Commit(), r.Response()), Some(msg'), []))
    ensures Acceptable(r.suite, r.Publics(), BFTSignature(Sig(r.Commit(), r.Response()), Some(r.msg), []))
  {
    hide ReducedEquation, SumIn, SumInt;
    MessageBinds(r, msg');
    HonestEquation(r);
    PlainEquation(r.suite, r.Publics(), r.Commit(), r.Response(), r.msg);
  }

  /** The exceptions with a null commitment, in order. */
  function OfflineOnes(g: Abelian, exceptions: seq<Exception>): seq<Exception> {
    if exceptions == [] then []
    else
      var rest, last := OfflineOnes(g, exceptions[..|exceptions| - 1]), exceptions[|exceptions| - 1];
      if last.commitment == g.zero then rest + [last] else rest
  }

  ghost predicate DistinctIndices(exceptions: seq<Exception>) {
    forall i, j :: 0 <= i < j < |exceptions| ==> exceptions[i].index != exceptions[j].index
  }

  lemma {:induction false} OfflineOnesFacts(g: Abelian, exceptions: seq<Exception>)
    ensures forall e :: e in OfflineOnes(g, exceptions) <==> e in exceptions && e.commitment == g.zero
    ensures DistinctIndices(exceptions) ==> DistinctIndices(OfflineOnes(g, exceptions))
    decreases |exceptions|
  {
    if exceptions != [] {
      var rest, last := exceptions[..|exceptions| - 1], exceptions[|exceptions| - 1];
      OfflineOnesFacts(g, rest);
      assert exceptions == rest + [last];
      if DistinctIndices(exceptions) {
        assert DistinctIndices(rest);
        assert forall e :: e in rest ==> e.index != last.index;
        var kept := OfflineOnes(g, rest);
        assert forall i :: 0 <= i < |kept| ==> kept[i] in kept;
      }
    }
  }

  /** The signers among who whose commitment is null. */
  ghost function Null(r: Round, who: set<nat>): set<nat> {
    set x | x in who && x < r.N() && r.Nonces()[x] == r.suite.g.zero
  }

  /** Signature keeps of a list exactly the signers with a null commitment. */
  lemma KeepsNull(r: Round, exceptions: seq<Exception>, who: set<nat>)
    requires Lists(r, exceptions, who)
    ensures Lists(r, OfflineOnes(r.suite.g, exceptions), Null(r, who))
  {
    var kept := OfflineOnes(r.suite.g, exceptions);
    OfflineOnesFacts(r.suite.g, exceptions);
    forall i | 0 <= i < |kept|
      ensures 0 <= kept[i].index < r.N() && kept[i].index in Null(r, who)
      ensures kept[i].commitment == r.Nonces()[kept[i].index]
    {
      assert kept[i] in kept;
      var j :| 0 <= j < |exceptions| && exceptions[j] == kept[i];
    }
    forall x: nat | x in Null(r, who) ensures exists i :: 0 <= i < |kept| && kept[i].index == x {
      var j :| 0 <= j < |exceptions| && exceptions[j].index == x;
      assert exceptions[j] in exceptions;
      var i :| 0 <= i < |kept| && kept[i] == exceptions[j];
    }
  }

  /** What the root hands out when it holds the given list: Signature keeps only null commitments, and
      readResponseChan has dropped the exceptions of the commit round, so refusers are missing.  The
      result is valid exactly when the responses of the missing refusers cancel out. */
  lemma DroppedRefusals(r: Round, exceptions: seq<Exception>, who: set<nat>)
    requires r.suite.Laws() && r.refused + r.offline <= Below(r.N()) && r.refused !! r.offline
    requires Lists(r, exceptions, who) && r.offline <= who <= r.refused + r.offline
    ensures var kept := OfflineOnes(r.suite.g, exceptions);
            IndicesOk(kept, |r.Publics()|) &&
            (ReducedEquation(r.suite, r.Publics(), r.Commit(), r.Response(), r.msg, kept) <==>
             SumInt(r.Responses(r.Challenge()), r.refused - Null(r, who), r.N()) % r.suite.order == 0)
  {
    hide ReducedEquation, SumIn, SumInt;
    KeepsNull(r, exceptions, who);
    var k, kept, missing := r.Challenge(), OfflineOnes(r.suite.g, exceptions), r.refused - Null(r, who);
    var rest := Below(r.N()) - Null(r, who);
    EquationFor(r, kept, Null(r, who), r.Response());
    assert rest == r.Honest() + missing;
    ResponsesMatch(r, k, rest, r.N());
    SumIntDisjoint(r.Responses(k), r.Honest(), missing, r.N());
    var all := SumInt(r.Responses(k), rest, r.N());
    assert r.suite.Generates(all, r.Response());
  }

  /** The signature of a round in which the root, a signer itself, has no exceptions to list. */
  ghost predicate RoundValid(r: Round, root: nat) {
    root !in r.refused && ReducedEquation(r.suite, r.Publics(), r.Commit(), r.Response(), r.msg, [])
  }

  lemma RoundValidIff(r: Round, root: nat)
    requires r.suite.Laws() && r.offline == {} && r.refused <= Below(r.N())
    ensures RoundValid(r, root) <==>
            root !in r.refused && SumInt(r.Responses(r.Challenge()), r.refused, r.N()) % r.suite.order == 0
  {
    hide ReducedEquation, SumInt, SumIn;
    DroppedRefusals(r, [], {});
    assert r.refused - Null(r, {}) == r.refused;
  }

  lemma {:induction false} SumIntEmpty(f: seq<int>, k: nat)
    requires k <= |f|
    ensures SumInt(f, {}, k) == 0
  {
    if k > 0 { SumIntEmpty(f, k - 1); }
  }

  lemma {:induction false} SumIntUpdate(f: seq<int>, S: set<nat>, k: nat, v: nat, delta: int)
    requires k <= |f| && v < |f|
    ensures SumInt(f[v := f[v] + delta], S, k) == SumInt(f, S, k) + if v in S && v < k then delta else 0
  {
    if k > 0 { SumIntUpdate(f, S, k - 1, v, delta); }
  }

  /** Nobody refuses: that is enough. */
  lemma NoRefuserIsValid(r: Round, root: nat)
    requires r.suite.Laws() && r.offline == {} && r.refused == {}
    ensures RoundValid(r, root)
  {
    RoundValidIff(r, root);
    SumIntEmpty(r.Responses(r.Challenge()), r.N());
  }

  /** A single refuser is fatal unless its response is zero modulo the order. */
  lemma OneRefuser(r: Round, root: nat, v: nat)
    requires r.suite.Laws() && r.offline == {} && r.refused == {v} && v < r.N()
    ensures RoundValid(r, root) <==> root != v && r.Responses(r.Challenge())[v] % r.suite.order == 0
  {
    RoundValidIff(r, root);
    var f := r.Responses(r.Challenge());
    SumIntUpdate(f, {v}, r.N(), v, -f[v]);
    SumIntZero(f[v := 0], {v}, r.N());
  }

  lemma {:induction false} SumIntZero(f: seq<int>, S: set<nat>, k: nat)
    requires k <= |f| && forall i: nat :: i in S && i < |f| ==> f[i] == 0
    ensures SumInt(f, S, k) == 0
  {
    if k > 0 { SumIntZero(f, S, k - 1); }
  }

  /** Two signers, of which the second refuses. */
  function TwoSigners(suite: Suite): Round {
    Round(suite, [Signer(0, 0), Signer(0, 1)], {1}, {}, "block")
  }

  /** An input on which the signature is invalid, whatever the suite and its hash. */
  lemma RefusalBreaksIt(suite: Suite)
    requires suite.Laws()
    ensures !RoundValid(TwoSigners(suite), 0)
  {
    OneRefuser(TwoSigners(suite), 0, 1);
  }

  ghost function WithNonces(r: Round, nonces: seq<int>): Round
    requires |nonces| == r.N()
  {
    r.(signers := seq(r.N(), i requires 0 <= i < r.N() => Signer(r.signers[i].secret, nonces[i])))
  }

  /** Without offline signers the aggregate commitment is the sum of the nonces times the base. */
  lemma {:induction false} CommitOfNonces(r: Round, nonces: seq<int>, k: nat)
    requires r.suite.Laws() && r.offline == {} && |nonces| == r.N() && k <= r.N()
    ensures SumIn(r.suite.g, WithNonces(r, nonces).Nonces(), Below(r.N()), k)
            == r.suite.mul(SumInt(nonces, Below(r.N()), k), r.suite.base)
  {
    if k == 0 {
      assert r.suite.MulZero(0);
    } else {
      CommitOfNonces(r, nonces, k - 1);
      assert r.suite.MulAdds(SumInt(nonces, Below(r.N()), k - 1), nonces[k - 1], r.suite.base);
    }
  }

  /** Shifting one unit of nonce from one signer to another leaves commitment and challenge alone. */
  lemma ShiftNonce(r: Round, nonces: seq<int>, v: nat, w: nat)
    requires r.suite.Laws() && r.offline == {} && |nonces| == r.N() && v < r.N() && w < r.N() && v != w
    ensures var shifted := nonces[v := nonces[v] + 1][w := nonces[w] - 1];
            WithNonces(r, nonces).Challenge() == WithNonces(r, shifted).Challenge()
  {
    var n, one := r.N(), nonces[v := nonces[v] + 1];
    var shifted := one[w := nonces[w] - 1];
    SumIntUpdate(nonces, Below(n), n, v, 1);
    SumIntUpdate(one, Below(n), n, w, -1);
    CommitOfNonces(r, nonces, n);
    CommitOfNonces(r, shifted, n);
    assert WithNonces(r, nonces).Publics() == WithNonces(r, shifted).Publics();
  }

  /** The shift moves one unit of response as well. */
  lemma ShiftResponses(r: Round, nonces: seq<int>, S: set<nat>, v: nat, w: nat, k: int)
    requires |nonces| == r.N() && v < r.N() && w < r.N() && v in S && w !in S
    ensures var shifted := nonces[v := nonces[v] + 1][w := nonces[w] - 1];
            SumInt(WithNonces(r, shifted).Responses(k), S, r.N())
                == SumInt(WithNonces(r, nonces).Responses(k), S, r.N()) + 1
  {
    var f, shifted := WithNonces(r, nonces).Responses(k), nonces[v := nonces[v] + 1][w := nonces[w] - 1];
    assert WithNonces(r, shifted).Responses(k) == f[v := f[v] + 1][w := f[w] - 1];
    SumIntUpdate(f, S, r.N(), v, 1);
    SumIntUpdate(f[v := f[v] + 1], S, r.N(), w, -1);
  }

  /** With a refuser and an honest root there are nonces for which the signature is invalid. */
  lemma SomeNoncesFail(r: Round, root: nat, v: nat) returns (nonces: seq<int>)
    requires r.suite.Laws() && r.offline == {} && r.refused <= Below(r.N()) && root < r.N()
    requires v in r.refused && root !in r.refused
    ensures |nonces| == r.N() && !RoundValid(WithNonces(r, nonces), root)
  {
    hide RoundValid, SumInt;
    nonces := seq(r.N(), _ => 0);
    var r0 := WithNonces(r, nonces);
    if RoundValid(r0, root) {
      var shifted := nonces[v := nonces[v] + 1][root := nonces[root] - 1];
      ShiftNonce(r, nonces, v, root);
      ShiftResponses(r, nonces, r.refused, v, root, r0.Challenge());
      RoundValidIff(r0, root);
      RoundValidIff(WithNonces(r, shifted), root);
      NextNotMultiple(r.suite, SumInt(r0.Responses(r0.Challenge()), r.refused, r.N()));
      nonces := shifted;
    }
  }

  lemma NextNotMultiple(s: Suite, x: int)
    requires s.Laws() && x % s.order == 0
    ensures (x + 1) % s.order != 0
  {
    assert s.MulAdds(x, 1, s.base) && s.MulZero(0);
    assert s.Generates(x, 0) && s.Generates(1, 0) && s.Generates(x + 1, 0);
    ZeroLeft(s.g, s.mul(1, s.base));
  }

  /** When a caller may rely on the signature: it is valid whatever the nonces exactly when nobody
      refuses. */
  lemma ValidForAllNoncesIff(r: Round, root: nat)
    requires r.suite.Laws() && r.offline == {} && r.refused <= Below(r.N()) && root < r.N()
    ensures (forall nonces: seq<int> :: |nonces| == r.N() ==> RoundValid(WithNonces(r, nonces), root)) <==>
              r.refused == {}
  {
    if r.refused == {} {
      forall nonces: seq<int> | |nonces| == r.N() ensures RoundValid(WithNonces(r, nonces), root) {
        NoRefuserIsValid(WithNonces(r, nonces), root);
      }
    } else if root in r.refused {
      assert !RoundValid(WithNonces(r, seq(r.N(), _ => 0)), root);
    } else {
      var v :| v in r.refused;
      var nonces := SomeNoncesFail(r, root, v);
    }
  }

  /** allowedExceptions of NewBFTCoSiProtocol. */
  function AllowedExceptions(nodes: nat): int {
    nodes - (nodes + 1) * 2 / 3
  }

  lemma {:induction false} CardUnion(a: set<nat>, b: set<nat>)
    ensures |a + b| + |a * b| == |a| + |b|
    decreases a
  {
    if a == {} {
      assert a + b == b && a * b == {};
    } else {
      var x :| x in a;
      var a' := a - {x};
      CardUnion(a', b);
      assert |a| == |a'| + 1;
      if x in b {
        assert a' + b == a + b;
        assert a * b == (a' * b) + {x};
      } else {
        assert a + b == (a' + b) + {x};
        assert a * b == a' * b;
      }
    }
  }

  /** Quorum intersection: two signer sets within the exception threshold share more than a third
      of the nodes, rounded down. */
  lemma QuorumsIntersect(n: nat, a: set<nat>, b: set<nat>)
    requires n >= 1 && a <= Below(n) && b <= Below(n)
    requires n - |a| <= AllowedExceptions(n) && n - |b| <= AllowedExceptions(n)
    ensures |a * b| > (n - 1) / 3
  {
    CardUnion(a, b);
    SubsetCard(a + b, Below(n));
  }

  /** The nodes lo .. hi. */
  function Span(lo: nat, hi: nat): set<nat> {
    Below(hi) - Below(lo)
  }

  lemma SpanCard(lo: nat, hi: nat)
    requires lo <= hi
    ensures |Span(lo, hi)| == hi - lo
  {
    assert Below(hi) == Span(lo, hi) + Below(lo);
  }

  /** The first and the last m of n nodes share as few as m of n nodes can. */
  lemma LeastOverlap(n: nat, m: nat)
    requires m <= n
    ensures |Below(m)| == |Span(n - m, n)| == m
    ensures |Below(m) * Span(n - m, n)| == if 2 * m <= n then 0 else 2 * m - n
  {
    SpanCard(n - m, n);
    if 2 * m <= n {
      assert Below(m) * Span(n - m, n) == {};
    } else {
      SpanCard(n - m, m);
      assert Below(m) * Span(n - m, n) == Span(n - m, m);
    }
  }

  /** Any two sets that miss at most t of n nodes share more than (n - 1) / 3. */
  ghost predicate AlwaysIntersect(n: nat, t: nat) {
    forall a: set<nat>, b: set<nat> ::
      a <= Below(n) && b <= Below(n) && n - |a| <= t && n - |b| <= t ==> |a * b| > (n - 1) / 3
  }

  /** The threshold is the largest with which quorums intersect so. */
  lemma ThresholdExact(n: nat, t: nat)
    requires n >= 1
    ensures AlwaysIntersect(n, t) <==> t <= n - (n + 1) * 2 / 3
  {
    if t <= n - (n + 1) * 2 / 3 {
      forall a: set<nat>, b: set<nat> | a <= Below(n) && b <= Below(n) && n - |a| <= t && n - |b| <= t
        ensures |a * b| > (n - 1) / 3
      {
        QuorumsIntersect(n, a, b);
      }
    } else {
      var m := (n + 1) * 2 / 3 - 1;
      LeastOverlap(n, m);
      assert Below(m) <= Below(n) && Span(n - m, n) <= Below(n);
      assert !AlwaysIntersect(n, t);
    }
  }

  datatype Response = Response(value: Point, exceptions: seq<Exception>)

  /** What a node carries from the challenge of the commit round to the end. */
  datatype CommitState = CommitState(signRefusal: bool, tempExceptions: seq<Exception>)

  /** The prepare signature is for the digest of the message. */
  function Hashed(s: Suite, prepare: BFTSignature): BFTSignature {
    prepare.(msg := Some(s.digest(if prepare.msg.Some? then prepare.msg.value else "")))
  }

  /** handleChallengeCommit: a node refuses from now on when the prepare signature does not verify or
      carries more exceptions than the threshold. */
  ghost function Challenged(s: Suite, publics: seq<Point>, st: CommitState, prepare: BFTSignature): CommitState {
    var goesOn := Acceptable(s, publics, Hashed(s, prepare)) && |prepare.exceptions| <= AllowedExceptions(|publics|);
    CommitState(st.signRefusal || !goesOn, prepare.exceptions)
  }

  /** Signature at the root. */
  function SignatureOf(g: Abelian, st: CommitState, sig: SigBytes, msg: string): BFTSignature {
    if st.signRefusal then BFTSignature(NilSig, Some(msg), st.tempExceptions)
    else BFTSignature(sig, Some(msg), OfflineOnes(g, st.tempExceptions))
  }

  /** A prepare signature without exceptions that verifies makes nobody refuse. */
  lemma NobodyNewRefuses(s: Suite, publics: seq<Point>, st: CommitState, prepare: BFTSignature)
    requires Acceptable(s, publics, Hashed(s, prepare)) && prepare.exceptions == []
    ensures Challenged(s, publics, st, prepare) == CommitState(st.signRefusal, [])
  {
    assert AllowedExceptions(|publics|) >= 0;
  }

  /** One node during the commit round.  Scalars are given by their multiples of the base point. */
  class CommitRound {
    const suite: Suite
    const publics: seq<Point>
    const rosterIndex: nat
    const allowedExceptions: int
    const commitment: Point      // commit.GetCommitment()
    const response: Point        // commit.GetResponse()
    var signRefusal: bool
    var tempExceptions: seq<Exception>

    ghost predicate Configured() {
      suite.Laws() && allowedExceptions == AllowedExceptions(|publics|)
    }

    function View(): CommitState
      reads this
    {
      CommitState(signRefusal, tempExceptions)
    }

    constructor (suite: Suite, publics: seq<Point>, rosterIndex: nat, commitment: Point, response: Point)
      ensures this.suite == suite && this.publics == publics && this.rosterIndex == rosterIndex
      ensures this.commitment == commitment && this.response == response
      ensures allowedExceptions == AllowedExceptions(|publics|) && View() == CommitState(false, [])
    {
      this.suite, this.publics, this.rosterIndex := suite, publics, rosterIndex;
      this.commitment, this.response := commitment, response;
      this.allowedExceptions := AllowedExceptions(|publics|);
      signRefusal, tempExceptions := false, [];
    }

    /** A node refuses when the prepare signature does not verify or carries more exceptions than
        the threshold.  An exception index outside the roster crashes the node. */
    method HandleChallengeCommit(prepare: BFTSignature) returns (crashed: bool)
      requires Configured()
      modifies this
      ensures crashed <==> prepare.sig != NilSig && !IndicesOk(prepare.exceptions, |publics|)
      ensures crashed ==> View() == old(View())
      ensures !crashed ==> View() == Challenged(suite, publics, old(View()), prepare)
      ensures !crashed && |prepare.exceptions| > |publics| - (|publics| + 1) * 2 / 3 ==> signRefusal
      ensures !crashed && !signRefusal ==> Acceptable(suite, publics, Hashed(suite, prepare))
      ensures !crashed ==> tempExceptions == prepare.exceptions
    {
      var v := Verify(suite, publics, Hashed(suite, prepare));
      if v == IndexPanic {
        return true;
      }
      if v != Valid {
        signRefusal := true;
      }
      if |prepare.exceptions| > allowedExceptions {
        signRefusal := true;
      }
      tempExceptions := prepare.exceptions;
      return false;
    }

    /** The response passed up: a refuser's own part is taken out and an exception added. */
    method HandleResponseCommit(children: seq<Point>) returns (r: Response)
      requires Configured()
      ensures r.value == Rounds.Reply(suite.g, response, signRefusal, children)
      ensures signRefusal ==> r.value == suite.g.Sum(children)
      ensures r.exceptions == if signRefusal then [Exception(rosterIndex, commitment)] else []
    {
      var value := suite.g.zero;
      if children == [] {
        value := response;
        assert suite.g.Unit(response);
      } else {
        value := suite.g.add(response, suite.g.Sum(children));
      }
      var exceptions := [];
      if signRefusal {
        exceptions := exceptions + [Exception(rosterIndex, commitment)];
        SwapLast(suite.g, response, suite.g.Sum(children), suite.g.neg(response));
        assert suite.g.Cancels(response);
        ZeroLeft(suite.g, suite.g.Sum(children));
        value := suite.g.add(value, suite.g.neg(response));
      }
      r := Response(value, exceptions);
    }

    /** Signature at the root: after a refusal only the exceptions, otherwise those of offline nodes. */
    method Signature(sig: SigBytes, msg: string) returns (bs: BFTSignature)
      ensures bs == SignatureOf(suite.g, View(), sig, msg)
      ensures if signRefusal then bs.sig == NilSig && bs.exceptions == tempExceptions else bs.sig == sig
      ensures !signRefusal ==>
                forall e :: e in bs.exceptions <==> e in tempExceptions && e.commitment == suite.g.zero
    {
      OfflineOnesFacts(suite.g, tempExceptions);
      bs := BFTSignature(sig, Some(msg), []);
      if signRefusal {
        bs := bs.(sig := NilSig, exceptions := tempExceptions);
      }
      if bs.exceptions == [] {
        var kept := [];
        for i := 0 to |tempExceptions|
          invariant kept == OfflineOnes(suite.g, tempExceptions[..i])
        {
          if tempExceptions[i].commitment == suite.g.zero {
            kept := kept + [tempExceptions[i]];
          }
          assert tempExceptions[..i + 1][..i] == tempExceptions[..i];
        }
        assert tempExceptions[..|tempExceptions|] == tempExceptions;
        bs := bs.(exceptions := kept);
      }
    }
  }
}
