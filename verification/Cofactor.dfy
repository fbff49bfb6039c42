/** Points of the full group, whose order divides 8 l: what the arguments of src/aok.rs say about
    them holds up to points of order dividing 8, because decompression does not exclude those. */
module Cofactor {
  import opened Arith
  import opened Groups
  import opened ShuffleArgument

  /** The point multiplied by the cofactor. */
  function Clear<G>(g: Group<G>, P: G): G {
    Smul(g, 8, P)
  }

  function ClearAll<G>(g: Group<G>, Ps: seq<G>): (r: seq<G>)
    ensures |r| == |Ps| && forall i :: 0 <= i < |Ps| ==> r[i] == Clear(g, Ps[i])
  {
    seq(|Ps|, i requires 0 <= i < |Ps| => Clear(g, Ps[i]))
  }

  lemma ClearOrder<G(!new), C>(pp: Params<G, C>, P: G)
    requires IsGroup(pp.g) && CofactorAt(pp, P)
    ensures Smul(pp.g, pp.l, Clear(pp.g, P)) == pp.g.zero
  {
    SmulMul(pp.g, pp.l, 8, P);
    assert pp.l * 8 == 8 * pp.l;
  }

  lemma ClearAdd<G(!new)>(g: Group<G>, P: G, Q: G)
    requires IsGroup(g)
    ensures Clear(g, g.add(P, Q)) == g.add(Clear(g, P), Clear(g, Q))
  {
    SmulDist(g, 8, P, Q);
  }

  lemma ClearNeg<G(!new)>(g: Group<G>, P: G)
    requires IsGroup(g)
    ensures Clear(g, g.neg(P)) == g.neg(Clear(g, P))
  {
    SmulBasics(g, P);
    SmulComm(g, 8, -1, P);
    SmulBasics(g, Clear(g, P));
  }

  lemma ClearSmul<G(!new)>(g: Group<G>, k: int, P: G)
    requires IsGroup(g)
    ensures Clear(g, Smul(g, k, P)) == Smul(g, k, Clear(g, P))
  {
    SmulComm(g, 8, k, P);
  }

  lemma {:induction false} ClearMsm<G(!new)>(g: Group<G>, ks: seq<int>, Ps: seq<G>)
    requires IsGroup(g) && |ks| == |Ps|
    ensures Clear(g, Msm(g, ks, Ps)) == Msm(g, ks, ClearAll(g, Ps))
  {
    if ks == [] {
      SmulZero(g, 8);
    } else {
      ClearMsm(g, ks[1..], Ps[1..]);
      assert ClearAll(g, Ps)[1..] == ClearAll(g, Ps[1..]);
      ClearAdd(g, Smul(g, ks[0], Ps[0]), Msm(g, ks[1..], Ps[1..]));
      ClearSmul(g, ks[0], Ps[0]);
    }
  }

  /** A scalar acts on a cleared point through its residue. */
  lemma ClearAct<G(!new), C>(pp: Params<G, C>, k: int, P: G)
    requires ValidParams(pp)
    ensures Clear(pp.g, Act(pp, k, P)) == Act(pp, k, Clear(pp.g, P))
    ensures CofactorAt(pp, P) ==> Clear(pp.g, Act(pp, k, P)) == Smul(pp.g, k, Clear(pp.g, P))
  {
    ClearSmul(pp.g, Canonical(pp.l, k), P);
    if CofactorAt(pp, P) {
      ClearOrder(pp, P);
      ActIsSmul(pp, k, Clear(pp.g, P));
    }
  }

  // ---------- cleared parameters ----------

  /** The parameters with every generator multiplied by the cofactor. */
  function ClearedParams<G, C>(pp: Params<G, C>): Params<G, C> {
    pp.(base := Clear(pp.g, pp.base), f := ClearAll(pp.g, pp.f))
  }

  lemma ClearedIsValid<G(!new), C>(pp: Params<G, C>)
    requires ValidParams(pp)
    ensures ValidParams(ClearedParams(pp))
  {
    var q := ClearedParams(pp);
    SmulOrder(pp.g, pp.l, 8, pp.base);
    forall i | 0 <= i < |q.f| ensures Smul(q.g, q.l, q.f[i]) == q.g.zero {
      SmulOrder(pp.g, pp.l, 8, pp.f[i]);
    }
    forall P ensures CodecAt(q, P) { assert CodecAt(pp, P); }
    forall d: int, n: nat ensures ExpandAt(q, d, n) { assert ExpandAt(pp, d, n); }
  }

  lemma ClearedCom<G(!new), C>(pp: Params<G, C>, u: seq<int>, r: int)
    requires IsGroup(pp.g) && |u| == |pp.f|
    ensures Com(ClearedParams(pp), u, r) == Clear(pp.g, Com(pp, u, r))
  {
    ClearMsm(pp.g, u, pp.f);
    ClearSmul(pp.g, r, pp.base);
    ClearAdd(pp.g, Msm(pp.g, u, pp.f), Smul(pp.g, r, pp.base));
  }

  // ---------- openings up to the cofactor ----------

  /** P is the commitment to u under r, up to a point of order dividing 8. */
  ghost predicate Opens<G, C>(pp: Params<G, C>, P: G, u: seq<int>, r: int)
    requires |u| == |pp.f|
  {
    Clear(pp.g, P) == Clear(pp.g, Com(pp, u, r))
  }

  lemma EightIsUnit(l: int)
    requires IsPrime(l) && l > 2
    ensures !Cong(l, 8, 0)
  {
    SmallIsNonzero(l, 2);
    hide Cong, IsPrime;
    NonzeroProduct(l, 2, 2);
    NonzeroProduct(l, 4, 2);
  }

  /** On points of order l clearing loses nothing. */
  lemma ClearInjective<G(!new)>(g: Group<G>, l: int, P: G, Q: G)
    requires IsGroup(g) && IsPrime(l) && l > 2 && Smul(g, l, P) == g.zero && Smul(g, l, Q) == g.zero
    requires Clear(g, P) == Clear(g, Q)
    ensures P == Q
  {
    EightIsUnit(l);
    hide IsPrime, Cong;
    var w := InverseExists(l, 8);
    assert w * 8 == 8 * w;
    SmulMul(g, w, 8, P);
    SmulMul(g, w, 8, Q);
    SmulCong(g, l, 8 * w, 1, P);
    SmulCong(g, l, 8 * w, 1, Q);
    SmulBasics(g, P);
    SmulBasics(g, Q);
  }

  /** In the prime-order subgroup an opening up to the cofactor is an opening. */
  lemma OpensExactly<G(!new), C>(pp: Params<G, C>, P: G, u: seq<int>, r: int)
    requires ValidParams(pp) && |u| == |pp.f| && Smul(pp.g, pp.l, P) == pp.g.zero
    ensures Opens(pp, P, u, r) <==> P == Com(pp, u, r)
  {
    CommitIsCom(pp, u, r);
    if Opens(pp, P, u, r) { ClearInjective(pp.g, pp.l, P, Com(pp, u, r)); }
  }

  /** Two openings of one point are openings of one commitment. */
  lemma OpensTwice<G(!new), C>(pp: Params<G, C>, P: G, u: seq<int>, r: int, v: seq<int>, s: int)
    requires ValidParams(pp) && |u| == |v| == |pp.f| && Opens(pp, P, u, r) && Opens(pp, P, v, s)
    ensures Com(pp, u, r) == Com(pp, v, s)
  {
    CommitIsCom(pp, u, r);
    CommitIsCom(pp, v, s);
    ClearInjective(pp.g, pp.l, Com(pp, u, r), Com(pp, v, s));
  }

  /** Openings combine like the points they open. */
  lemma OpensCombine<G(!new), C>(pp: Params<G, C>, e: int, P: G, u: seq<int>, r: int, Q: G, v: seq<int>, s: int)
    requires ValidParams(pp) && |u| == |v| == |pp.f| && Opens(pp, P, u, r) && Opens(pp, Q, v, s)
    ensures Opens(pp, pp.g.add(Smul(pp.g, e, P), Q), AddVec(ScaleVec(e, u), v), e * r + s)
  {
    hide IsPrime, Cong, Smul, Com;
    var g := pp.g;
    ClearAdd(g, Smul(g, e, P), Q);
    ClearSmul(g, e, P);
    ComScale(pp, e, u, r);
    ComAdd(pp, ScaleVec(e, u), e * r, v, s);
    ClearSmul(g, e, Com(pp, u, r));
    ClearAdd(g, Smul(g, e, Com(pp, u, r)), Com(pp, v, s));
  }

  // ---------- points outside the subgroup ----------

  /** A nonzero point of order dividing 8 is outside the subgroup of order l. */
  lemma TorsionIsOutside<G(!new)>(g: Group<G>, l: int, T: G)
    requires IsGroup(g) && IsPrime(l) && l > 2 && T != g.zero && Clear(g, T) == g.zero
    ensures Smul(g, l, T) != g.zero
  {
    if Smul(g, l, T) == g.zero {
      SmulZero(g, l);
      SmulZero(g, 8);
      ClearInjective(g, l, T, g.zero);
    }
  }

  /** Adding it leaves the subgroup. */
  lemma ShiftedIsOutside<G(!new)>(g: Group<G>, l: int, P: G, T: G)
    requires IsGroup(g) && IsPrime(l) && l > 2 && T != g.zero && Clear(g, T) == g.zero && Smul(g, l, P) == g.zero
    ensures Smul(g, l, g.add(P, T)) != g.zero
  {
    TorsionIsOutside(g, l, T);
    SmulDist(g, l, P, T);
    Unit(g, Smul(g, l, T));
  }

  /** Multiples of 8 do not see it. */
  lemma ShiftVanishes<G(!new)>(g: Group<G>, k: int, P: G, T: G)
    requires IsGroup(g) && Clear(g, T) == g.zero
    ensures Smul(g, 8 * k, g.add(P, T)) == Smul(g, 8 * k, P)
  {
    SmulDist(g, 8 * k, P, T);
    assert 8 * k == k * 8;
    SmulMul(g, k, 8, T);
    SmulZero(g, k);
    Unit(g, Smul(g, 8 * k, P));
  }
}
