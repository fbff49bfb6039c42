/** The batched Diffie-Hellman argument, its completeness and special soundness, and the
    soundness of checking three commitment equations under two random weights (src/aok.rs). */
module BatchSoundness {
  import opened Arith
  import opened Groups
  import opened ShuffleArgument
  import opened AdaptedShuffle
  import opened Cofactor

  // ---------- weights ----------

  /** D1, D2, D3 are the differences left minus right of the three equations. */
  predicate Weighted<G(==)>(g: Group<G>, a1: int, a2: int, D1: G, D2: G, D3: G) {
    g.add(g.add(Smul(g, a1, D1), Smul(g, a2, D2)), D3) == g.zero
  }

  /** A failing first equation leaves at most one accepting first weight. */
  lemma FirstWeightUnique<G(!new)>(g: Group<G>, l: int, a1: int, b1: int, a2: int, D1: G, D2: G, D3: G)
    requires IsGroup(g) && IsPrime(l) && Smul(g, l, D1) == g.zero && D1 != g.zero
    requires Weighted(g, a1, a2, D1, D2, D3) && Weighted(g, b1, a2, D1, D2, D3)
    ensures Cong(l, a1, b1)
  {
    hide IsPrime, Cong;
    var x, y, z := Smul(g, a1, D1), Smul(g, b1, D1), Smul(g, a2, D2);
    Assoc(g, x, z, D3);
    Assoc(g, y, z, D3);
    Comm(g, x, g.add(z, D3));
    Comm(g, y, g.add(z, D3));
    CancelAdd(g, g.add(z, D3), x, y);
    SameMultiple(g, l, a1, b1, D1);
  }

  /** A failing second equation leaves at most one accepting second weight. */
  lemma SecondWeightUnique<G(!new)>(g: Group<G>, l: int, a1: int, a2: int, b2: int, D1: G, D2: G, D3: G)
    requires IsGroup(g) && IsPrime(l) && Smul(g, l, D2) == g.zero && D2 != g.zero
    requires Weighted(g, a1, a2, D1, D2, D3) && Weighted(g, a1, b2, D1, D2, D3)
    ensures Cong(l, a2, b2)
  {
    hide IsPrime, Cong;
    Comm(g, Smul(g, a1, D1), Smul(g, a2, D2));
    Comm(g, Smul(g, a1, D1), Smul(g, b2, D2));
    FirstWeightUnique(g, l, a2, b2, a1, D2, D1, D3);
  }

  /** When only the third equation fails, no weights accept. */
  lemma ThirdNeverAccepted<G(!new)>(g: Group<G>, a1: int, a2: int, D1: G, D2: G, D3: G)
    requires IsGroup(g) && D1 == g.zero && D2 == g.zero
    ensures Weighted(g, a1, a2, D1, D2, D3) <==> D3 == g.zero
  {
    SmulZero(g, a1);
    SmulZero(g, a2);
    Unit(g, g.zero);
    Unit(g, D3);
  }

  lemma SameMultiple<G(!new)>(g: Group<G>, l: int, a: int, b: int, x: G)
    requires IsGroup(g) && IsPrime(l) && Smul(g, l, x) == g.zero && x != g.zero
    requires Smul(g, a, x) == Smul(g, b, x)
    ensures Cong(l, a, b)
  {
    hide IsPrime, Cong, IsGroup, Smul;
    SmulAdd(g, a - b, b, x);
    var y := Smul(g, b, x);
    Unit(g, y);
    Comm(g, y, g.zero);
    Comm(g, y, Smul(g, a - b, x));
    CancelAdd(g, y, Smul(g, a - b, x), g.zero);
    PrimeOrder(g, l, a - b, x);
    CongBy(l, a, b, a - b, 0, 1);
  }

  function Minus<G>(g: Group<G>, x: G, y: G): G {
    g.add(x, g.neg(y))
  }

  lemma MinusZero<G(!new)>(g: Group<G>, x: G, y: G)
    requires IsGroup(g)
    ensures Minus(g, x, y) == g.zero <==> x == y
  {
    Neg(g, y);
    if Minus(g, x, y) == g.zero {
      Assoc(g, x, g.neg(y), y);
      Unit(g, x);
      Unit(g, y);
    }
  }

  lemma MinusOrder<G(!new)>(g: Group<G>, l: int, x: G, y: G)
    requires IsGroup(g) && Smul(g, l, x) == g.zero && Smul(g, l, y) == g.zero
    ensures Smul(g, l, Minus(g, x, y)) == g.zero
  {
    SmulDist(g, l, x, g.neg(y));
    SmulBasics(g, y);
    SmulComm(g, l, -1, y);
    SmulZero(g, -1);
    Unit(g, g.zero);
  }

  /** The verifier's single equation is the weighted sum of the three differences. */
  lemma BatchIsWeighted<G(!new), C>(pp: Params<G, C>, a1: int, a2: int, delta: int, c1: G, c2: G, c3: G,
                                    f: seq<int>, fd: seq<int>, x: seq<int>, z: int, zd: int)
    requires ValidParams(pp) && |f| == |fd| == |x| == |pp.f|
    requires Smul(pp.g, pp.l, c1) == pp.g.zero && Smul(pp.g, pp.l, c2) == pp.g.zero
    ensures BatchLeft(pp, a1, a2, c1, c2, c3) == Commit(pp, BatchVector(a1, a2, delta, f, fd, x), z * a1 + zd * a2)
      <==> Weighted(pp.g, a1, a2, Minus(pp.g, c1, Com(pp, f, z)), Minus(pp.g, c2, Com(pp, fd, zd)),
                    Minus(pp.g, c3, Com(pp, ScaleVec(delta, x), 0)))
  {
    hide IsPrime, Cong, Com, Commit, BatchVector;
    var g := pp.g;
    var e1, e2, e3 := Com(pp, f, z), Com(pp, fd, zd), Com(pp, ScaleVec(delta, x), 0);
    BatchFromParts(pp, a1, a2, delta, f, fd, x, z, zd);
    CommitIsCom(pp, f, z);
    CommitIsCom(pp, fd, zd);
    ActIsSmul(pp, a1, c1);
    ActIsSmul(pp, a2, c2);
    ActIsSmul(pp, a1, e1);
    ActIsSmul(pp, a2, e2);
    WeightedDifference(g, a1, a2, c1, c2, c3, e1, e2, e3);
    MinusZero(g, g.add(g.add(Smul(g, a1, c1), Smul(g, a2, c2)), c3),
      g.add(g.add(Smul(g, a1, e1), Smul(g, a2, e2)), e3));
  }

  lemma ScaledMinus<G(!new)>(g: Group<G>, a: int, x: G, y: G)
    requires IsGroup(g)
    ensures Smul(g, a, Minus(g, x, y)) == Minus(g, Smul(g, a, x), Smul(g, a, y))
  {
    SmulDist(g, a, x, g.neg(y));
    SmulBasics(g, y);
    SmulComm(g, a, -1, y);
    SmulBasics(g, Smul(g, a, y));
  }

  lemma SumMinus<G(!new)>(g: Group<G>, a: G, b: G, c: G, d: G)
    requires IsGroup(g)
    ensures g.add(Minus(g, a, b), Minus(g, c, d)) == Minus(g, g.add(a, c), g.add(b, d))
  {
    Interchange(g, a, g.neg(b), c, g.neg(d));
    NegSum(g, b, d);
  }

  lemma WeightedDifference<G(!new)>(g: Group<G>, a1: int, a2: int, c1: G, c2: G, c3: G, e1: G, e2: G, e3: G)
    requires IsGroup(g)
    ensures g.add(g.add(Smul(g, a1, Minus(g, c1, e1)), Smul(g, a2, Minus(g, c2, e2))), Minus(g, c3, e3))
         == Minus(g, g.add(g.add(Smul(g, a1, c1), Smul(g, a2, c2)), c3),
           g.add(g.add(Smul(g, a1, e1), Smul(g, a2, e2)), e3))
  {
    ScaledMinus(g, a1, c1, e1);
    ScaledMinus(g, a2, c2, e2);
    SumMinus(g, Smul(g, a1, c1), Smul(g, a1, e1), Smul(g, a2, c2), Smul(g, a2, e2));
    SumMinus(g, g.add(Smul(g, a1, c1), Smul(g, a2, c2)), g.add(Smul(g, a1, e1), Smul(g, a2, e2)), c3, e3);
  }

  /** The batched equation for given commitments and responses. */
  predicate BatchHolds<G(==), C>(pp: Params<G, C>, c1: G, c2: G, c3: G, delta: int,
                                 f: seq<int>, fd: seq<int>, x: seq<int>, z: int, zd: int, a1: int, a2: int)
    requires pp.l > 0 && |f| == |fd| == |x| == |pp.f|
  {
    BatchLeft(pp, a1, a2, c1, c2, c3) == Commit(pp, BatchVector(a1, a2, delta, f, fd, x), z * a1 + zd * a2)
  }

  /** The batched commitment check of one proof, as a function of the two weights. */
  predicate BatchAccepts<G(==), C>(pp: Params<G, C>, t: Derived<G>, proof: AdaptedProof<C>, a1: int, a2: int)
    requires pp.l > 0 && |proof.psi.f| == |proof.psi.fDelta| == |proof.x| == |pp.f|
  {
    BatchHolds(pp, Com1(pp, t), Com2(pp, t), Com3(pp, t, proof.v, proof.v2), t.delta,
               proof.psi.f, proof.psi.fDelta, proof.x, proof.psi.z, proof.psi.zDelta, a1, a2)
  }

  lemma BatchSoundAt<G(!new), C>(pp: Params<G, C>, c1: G, c2: G, c3: G, delta: int, f: seq<int>, fd: seq<int>,
                                 x: seq<int>, z: int, zd: int, a1: int, a2: int, b1: int, b2: int)
    requires ValidParams(pp) && |f| == |fd| == |x| == |pp.f|
    requires Smul(pp.g, pp.l, c1) == pp.g.zero && Smul(pp.g, pp.l, c2) == pp.g.zero
    requires BatchHolds(pp, c1, c2, c3, delta, f, fd, x, z, zd, a1, a2)
    ensures c1 != Com(pp, f, z) && BatchHolds(pp, c1, c2, c3, delta, f, fd, x, z, zd, b1, a2) ==> Cong(pp.l, a1, b1)
    ensures c2 != Com(pp, fd, zd) && BatchHolds(pp, c1, c2, c3, delta, f, fd, x, z, zd, a1, b2) ==> Cong(pp.l, a2, b2)
    ensures c1 == Com(pp, f, z) && c2 == Com(pp, fd, zd) ==> c3 == Com(pp, ScaleVec(delta, x), 0)
  {
    hide IsPrime, Cong, Com, Commit, BatchLeft, BatchVector, Minus, IsGroup, Smul, ScaleVec, Weighted;
    var g, l := pp.g, pp.l;
    var D1, D2, D3 := Minus(g, c1, Com(pp, f, z)), Minus(g, c2, Com(pp, fd, zd)),
      Minus(g, c3, Com(pp, ScaleVec(delta, x), 0));
    BatchIsWeighted(pp, a1, a2, delta, c1, c2, c3, f, fd, x, z, zd);
    BatchIsWeighted(pp, b1, a2, delta, c1, c2, c3, f, fd, x, z, zd);
    BatchIsWeighted(pp, a1, b2, delta, c1, c2, c3, f, fd, x, z, zd);
    CommitIsCom(pp, f, z);
    CommitIsCom(pp, fd, zd);
    MinusOrder(g, l, c1, Com(pp, f, z));
    MinusOrder(g, l, c2, Com(pp, fd, zd));
    MinusZero(g, c1, Com(pp, f, z));
    MinusZero(g, c2, Com(pp, fd, zd));
    MinusZero(g, c3, Com(pp, ScaleVec(delta, x), 0));
    if D1 != g.zero && BatchHolds(pp, c1, c2, c3, delta, f, fd, x, z, zd, b1, a2) {
      FirstWeightUnique(g, l, a1, b1, a2, D1, D2, D3);
    }
    if D2 != g.zero && BatchHolds(pp, c1, c2, c3, delta, f, fd, x, z, zd, a1, b2) {
      SecondWeightUnique(g, l, a1, a2, b2, D1, D2, D3);
    }
    if D1 == g.zero && D2 == g.zero {
      ThirdNeverAccepted(g, a1, a2, D1, D2, D3);
    }
  }

  /** In the prime-order subgroup: if one of the three commitment equations fails, fixing one
      weight leaves at most one residue of the other that accepts. */
  lemma BatchSoundInSubgroup<G(!new), C>(pp: Params<G, C>, t: Derived<G>, proof: AdaptedProof<C>, a1: int, a2: int,
                                         b1: int, b2: int)
    requires ValidParams(pp) && |proof.psi.f| == |proof.psi.fDelta| == |proof.x| == |pp.f|
    requires Smul(pp.g, pp.l, Com1(pp, t)) == pp.g.zero && Smul(pp.g, pp.l, Com2(pp, t)) == pp.g.zero
    requires BatchAccepts(pp, t, proof, a1, a2)
    ensures Com1(pp, t) != Com(pp, proof.psi.f, proof.psi.z) && BatchAccepts(pp, t, proof, b1, a2)
      ==> Cong(pp.l, a1, b1)
    ensures Com2(pp, t) != Com(pp, proof.psi.fDelta, proof.psi.zDelta) && BatchAccepts(pp, t, proof, a1, b2)
      ==> Cong(pp.l, a2, b2)
    ensures Com1(pp, t) == Com(pp, proof.psi.f, proof.psi.z)
      && Com2(pp, t) == Com(pp, proof.psi.fDelta, proof.psi.zDelta)
      ==> Com3(pp, t, proof.v, proof.v2) == Com(pp, ScaleVec(t.delta, proof.x), 0)
  {
    hide IsGroup, IsPrime, Cong, Com, Com1, Com2, Com3, BatchHolds, Smul, ScaleVec;
    BatchSoundAt(pp, Com1(pp, t), Com2(pp, t), Com3(pp, t, proof.v, proof.v2), t.delta,
                 proof.psi.f, proof.psi.fDelta, proof.x, proof.psi.z, proof.psi.zDelta, a1, a2, b1, b2);
  }

  lemma ClearedCommit<G(!new), C>(pp: Params<G, C>, u: seq<int>, r: int)
    requires ValidParams(pp) && |u| == |pp.f|
    ensures Commit(ClearedParams(pp), u, r) == Clear(pp.g, Commit(pp, u, r))
  {
    hide IsPrime, Cong, Smul, Com;
    ClearedIsValid(pp);
    CommitIsCom(pp, u, r);
    CommitIsCom(ClearedParams(pp), u, r);
    ClearedCom(pp, u, r);
  }

  lemma ClearedBatch<G(!new), C>(pp: Params<G, C>, c1: G, c2: G, c3: G, delta: int,
                                 f: seq<int>, fd: seq<int>, x: seq<int>, z: int, zd: int, a1: int, a2: int)
    requires ValidParams(pp) && |f| == |fd| == |x| == |pp.f|
    requires BatchHolds(pp, c1, c2, c3, delta, f, fd, x, z, zd, a1, a2)
    ensures var g := pp.g;
      BatchHolds(ClearedParams(pp), Clear(g, c1), Clear(g, c2), Clear(g, c3), delta, f, fd, x, z, zd, a1, a2)
  {
    hide IsPrime, Cong, Commit, BatchVector, Act, Clear;
    var g := pp.g;
    ClearedCommit(pp, BatchVector(a1, a2, delta, f, fd, x), z * a1 + zd * a2);
    ClearAdd(g, g.add(Act(pp, a1, c1), Act(pp, a2, c2)), c3);
    ClearAdd(g, Act(pp, a1, c1), Act(pp, a2, c2));
    ClearedAct(pp, a1, c1);
    ClearedAct(pp, a2, c2);
  }

  lemma ClearedAct<G(!new), C>(pp: Params<G, C>, k: int, P: G)
    requires ValidParams(pp)
    ensures Act(ClearedParams(pp), k, Clear(pp.g, P)) == Clear(pp.g, Act(pp, k, P))
  {
    hide IsPrime, Cong, Smul, IsGroup, Canonical;
    ClearAct(pp, k, P);
  }

  /** The same in the whole group, up to points of order dividing 8: if one of the first two
      equations fails there, fixing one weight leaves at most one residue of the other that
      accepts, and if both hold so does the third. */
  lemma BatchSound<G(!new), C>(pp: Params<G, C>, t: Derived<G>, proof: AdaptedProof<C>, a1: int, a2: int, b1: int,
                               b2: int)
    requires ValidParams(pp) && |proof.psi.f| == |proof.psi.fDelta| == |proof.x| == |pp.f|
    requires CofactorAt(pp, Com1(pp, t)) && CofactorAt(pp, Com2(pp, t))
    requires BatchAccepts(pp, t, proof, a1, a2)
    ensures !Opens(pp, Com1(pp, t), proof.psi.f, proof.psi.z) && BatchAccepts(pp, t, proof, b1, a2)
      ==> Cong(pp.l, a1, b1)
    ensures !Opens(pp, Com2(pp, t), proof.psi.fDelta, proof.psi.zDelta) && BatchAccepts(pp, t, proof, a1, b2)
      ==> Cong(pp.l, a2, b2)
    ensures Opens(pp, Com1(pp, t), proof.psi.f, proof.psi.z)
      && Opens(pp, Com2(pp, t), proof.psi.fDelta, proof.psi.zDelta)
      ==> Opens(pp, Com3(pp, t, proof.v, proof.v2), ScaleVec(t.delta, proof.x), 0)
  {
    hide Cong, IsPrime, IsGroup, Com, Com1, Com2, Com3, BatchHolds, Smul, ScaleVec, Clear;
    BatchSoundCleared(pp, Com1(pp, t), Com2(pp, t), Com3(pp, t, proof.v, proof.v2), t.delta,
                      proof.psi.f, proof.psi.fDelta, proof.x, proof.psi.z, proof.psi.zDelta, a1, a2, b1, b2);
  }

  lemma BatchSoundCleared<G(!new), C>(pp: Params<G, C>, c1: G, c2: G, c3: G, delta: int, f: seq<int>, fd: seq<int>,
                                      x: seq<int>, z: int, zd: int, a1: int, a2: int, b1: int, b2: int)
    requires ValidParams(pp) && |f| == |fd| == |x| == |pp.f|
    requires CofactorAt(pp, c1) && CofactorAt(pp, c2)
    requires BatchHolds(pp, c1, c2, c3, delta, f, fd, x, z, zd, a1, a2)
    ensures !Opens(pp, c1, f, z) && BatchHolds(pp, c1, c2, c3, delta, f, fd, x, z, zd, b1, a2) ==> Cong(pp.l, a1, b1)
    ensures !Opens(pp, c2, fd, zd) && BatchHolds(pp, c1, c2, c3, delta, f, fd, x, z, zd, a1, b2) ==> Cong(pp.l, a2, b2)
    ensures Opens(pp, c1, f, z) && Opens(pp, c2, fd, zd) ==> Opens(pp, c3, ScaleVec(delta, x), 0)
  {
    hide Cong, IsPrime, Com, BatchHolds, Smul, Clear;
    var g, q := pp.g, ClearedParams(pp);
    ClearedIsValid(pp);
    ClearOrder(pp, c1);
    ClearOrder(pp, c2);
    ClearedCom(pp, f, z);
    ClearedCom(pp, fd, zd);
    ClearedCom(pp, ScaleVec(delta, x), 0);
    ClearedBatch(pp, c1, c2, c3, delta, f, fd, x, z, zd, a1, a2);
    if BatchHolds(pp, c1, c2, c3, delta, f, fd, x, z, zd, b1, a2) {
      ClearedBatch(pp, c1, c2, c3, delta, f, fd, x, z, zd, b1, a2);
    }
    if BatchHolds(pp, c1, c2, c3, delta, f, fd, x, z, zd, a1, b2) {
      ClearedBatch(pp, c1, c2, c3, delta, f, fd, x, z, zd, a1, b2);
    }
    hide ValidParams;
    BatchSoundAt(q, Clear(g, c1), Clear(g, c2), Clear(g, c3), delta, f, fd, x, z, zd, a1, a2, b1, b2);
  }

  /** The cofactor is needed: adding a point of order dividing 8 to the first commitment goes
      unnoticed at the weights 8 and 16. */
  lemma TorsionUnnoticed<G(!new), C>(pp: Params<G, C>, T: G, delta: int, f: seq<int>, fd: seq<int>, x: seq<int>,
                                     z: int, zd: int, a2: int)
    requires ValidParams(pp) && pp.l > 16 && |f| == |fd| == |x| == |pp.f| && T != pp.g.zero
      && Clear(pp.g, T) == pp.g.zero
    ensures var g := pp.g; var c1 := g.add(Com(pp, f, z), T);
      var c2, c3 := Com(pp, fd, zd), Com(pp, ScaleVec(delta, x), 0);
      && c1 != Com(pp, f, z) && !Cong(pp.l, 8, 16)
      && BatchHolds(pp, c1, c2, c3, delta, f, fd, x, z, zd, 8, a2)
        && BatchHolds(pp, c1, c2, c3, delta, f, fd, x, z, zd, 16, a2)
  {
    hide IsPrime, Cong, Com, Commit, BatchVector, Smul, Clear, Canonical;
    var g := pp.g;
    var P := Com(pp, f, z);
    CommitIsCom(pp, f, z);
    ShiftedIsOutside(g, pp.l, P, T);
    SmallWeight(pp, 1, P, T);
    SmallWeight(pp, 2, P, T);
    BatchFromParts(pp, 8, a2, delta, f, fd, x, z, zd);
    BatchFromParts(pp, 16, a2, delta, f, fd, x, z, zd);
    EightIsUnit(pp.l);
    if Cong(pp.l, 8, 16) { CongBy(pp.l, 8, 0, 8, 16, -1); }
  }

  lemma SmallWeight<G(!new), C>(pp: Params<G, C>, k: nat, P: G, T: G)
    requires ValidParams(pp) && 8 * k < pp.l && Clear(pp.g, T) == pp.g.zero
    ensures Act(pp, 8 * k, pp.g.add(P, T)) == Act(pp, 8 * k, P) == Smul(pp.g, 8 * k, P)
  {
    hide IsPrime, Cong, Canonical;
    CongRefl(pp.l, 8 * k);
    CanonicalUnique(pp.l, 8 * k, 8 * k);
    ShiftVanishes(pp.g, k, P, T);
  }

  // ---------- batched Diffie-Hellman ----------

  datatype DdhProof<C> = DdhProof(c: C, z: int)

  function DdhSeed<G, C>(pp: Params<G, C>, pk: G, gs: seq<C>, hs: seq<C>): int {
    pp.hash([PointBytes(pp.enc(pk))] + PointChunks(gs) + PointChunks(hs))
  }

  function DdhDelta<G, C>(pp: Params<G, C>, c: C, ha: int): int {
    pp.hash([PointBytes(c), DigestBytes(ha)])
  }

  function DdhProve<G, C>(pp: Params<G, C>, pk: G, g: seq<G>, gs: seq<C>, hs: seq<C>, s: int, r: int): DdhProof<C>
    requires pp.l > 0
    requires forall d: int, n: nat :: ExpandAt(pp, d, n)
  {
    var ha := DdhSeed(pp, pk, gs, hs);
    assert ExpandAt(pp, ha, |g|);
    var c := pp.enc(pp.g.add(ActMsm(pp, ScaleVec(r, pp.expand(ha, |g|)), g), Act(pp, r, pp.base)));
    DdhProof(c, DdhDelta(pp, c, ha) * s + r)
  }

  /** The verification equation for given weights and challenge. */
  predicate DdhEquation<G(==), C>(pp: Params<G, C>, pk: G, g: seq<G>, h: seq<G>, a: seq<int>, c: G, delta: int, z: int)
    requires pp.l > 0 && |a| == |g| == |h|
  {
    Minus(pp.g, pp.g.add(c, Act(pp, delta, pk)), Act(pp, z, pp.base))
      == ActMsm(pp, ScaleVec(z, a) + ScaleVec(-delta, a), g + h)
  }

  /** Panic where the proof point does not decode or the lengths differ. */
  function DdhVerify<G(==), C>(pp: Params<G, C>, pk: G, g: seq<G>, h: seq<G>, gs: seq<C>, hs: seq<C>,
                               proof: DdhProof<C>): Verdict
    requires pp.l > 0
    requires forall d: int, n: nat :: ExpandAt(pp, d, n)
  {
    var ha := DdhSeed(pp, pk, gs, hs);
    assert ExpandAt(pp, ha, |g|);
    var c := pp.dec(proof.c);
    if c.None? || |g| != |h| then Panic
    else if DdhEquation(pp, pk, g, h, pp.expand(ha, |g|), c.value, DdhDelta(pp, proof.c, ha), proof.z) then Accept
    else Reject
  }

  /** Both sides of the equation with the reductions removed. */
  lemma DdhUnfold<G(!new), C>(pp: Params<G, C>, pk: G, g: seq<G>, h: seq<G>, a: seq<int>, c: G, delta: int, z: int)
    requires ValidParams(pp) && |a| == |g| == |h|
    requires Smul(pp.g, pp.l, pk) == pp.g.zero && AllOrder(pp.g, pp.l, g) && AllOrder(pp.g, pp.l, h)
    ensures DdhEquation(pp, pk, g, h, a, c, delta, z) <==>
      pp.g.add(c, Smul(pp.g, delta, pp.g.add(pk, Msm(pp.g, a, h)))) == Smul(pp.g, z, pp.g.add(pp.base, Msm(pp.g, a, g)))
  {
    hide IsPrime, Cong;
    var G_ := pp.g;
    var A, B := Msm(G_, a, g), Msm(G_, a, h);
    ActIsSmul(pp, delta, pk);
    ActIsSmul(pp, z, pp.base);
    ActMsmIsMsm(pp, ScaleVec(z, a) + ScaleVec(-delta, a), g + h);
    MsmAppend(G_, ScaleVec(z, a), g, ScaleVec(-delta, a), h);
    MsmScale(G_, z, a, g);
    MsmScale(G_, -delta, a, h);
    SmulNeg(G_, delta, B);
    var lhs, zB, zA, dB := G_.add(c, Smul(G_, delta, pk)), Smul(G_, z, pp.base), Smul(G_, z, A), Smul(G_, delta, B);
    // lhs - zB = zA - dB iff lhs + dB = zA + zB
    MoveTerms(G_, lhs, zB, zA, dB);
    SmulDist(G_, delta, pk, B);
    SmulDist(G_, z, pp.base, A);
    Assoc(G_, c, Smul(G_, delta, pk), dB);
    Comm(G_, zA, zB);
  }

  lemma MoveTerms<G(!new)>(g: Group<G>, p: G, q: G, r: G, s: G)
    requires IsGroup(g)
    ensures Minus(g, p, q) == Minus(g, r, s) <==> g.add(p, s) == g.add(r, q)
  {
    MinusZero(g, Minus(g, p, q), Minus(g, r, s));
    MinusZero(g, g.add(p, s), g.add(r, q));
    var x := Minus(g, Minus(g, p, q), Minus(g, r, s));
    NegSum(g, r, g.neg(s));
    Neg(g, s);
    NegUnique(g, g.neg(s), s);
    Interchange(g, p, g.neg(q), g.neg(r), s);
    Interchange(g, p, s, g.neg(r), g.neg(q));
    Comm(g, g.neg(q), s);
    Comm(g, g.neg(r), g.neg(q));
    Interchange(g, p, g.neg(q), s, g.neg(r));
    Comm(g, s, g.neg(r));
    NegSum(g, r, q);
    Interchange(g, p, s, g.neg(q), g.neg(r));
  }

  lemma MultiplesOrder<G(!new)>(G_: Group<G>, l: int, g: seq<G>, h: seq<G>, s: int)
    requires IsGroup(G_) && |g| == |h| && AllOrder(G_, l, g)
    requires forall i :: 0 <= i < |g| ==> h[i] == Smul(G_, s, g[i])
    ensures AllOrder(G_, l, h)
  {
    forall i | 0 <= i < |h|
      ensures Smul(G_, l, h[i]) == G_.zero
    {
      SmulOrder(G_, l, s, g[i]);
    }
  }

  /** Honest proofs verify, for any number of pairs including none. */
  lemma DdhCompleteness<G(!new), C>(pp: Params<G, C>, g: seq<G>, h: seq<G>, gs: seq<C>, hs: seq<C>, s: int, r: int)
    requires ValidParams(pp) && |g| == |h| && AllOrder(pp.g, pp.l, g)
    requires forall i :: 0 <= i < |g| ==> h[i] == Smul(pp.g, s, g[i])
    ensures var pk := Smul(pp.g, s, pp.base);
      DdhVerify(pp, pk, g, h, gs, hs, DdhProve(pp, pk, g, gs, hs, s, r)) == Accept
  {
    hide IsPrime, Cong, DdhSeed, DdhDelta, DdhEquation, IsGroup, Act, ActMsm, Smul, Msm, AllOrder, Canonical;
    var G_, pk := pp.g, Smul(pp.g, s, pp.base);
    var ha := DdhSeed(pp, pk, gs, hs);
    assert ExpandAt(pp, ha, |g|);
    var a := pp.expand(ha, |g|);
    var c := G_.add(ActMsm(pp, ScaleVec(r, a), g), Act(pp, r, pp.base));
    assert CodecAt(pp, c);
    var delta := DdhDelta(pp, pp.enc(c), ha);
    MultiplesOrder(G_, pp.l, g, h, s);
    SmulOrder(G_, pp.l, s, pp.base);
    DdhUnfold(pp, pk, g, h, a, c, delta, delta * s + r);
    HonestSides(pp, g, h, s, r, a, delta);
  }

  /** With X = G + sum a g: the commitment is r X and pk + sum a h is s X. */
  lemma HonestSides<G(!new), C>(pp: Params<G, C>, g: seq<G>, h: seq<G>, s: int, r: int, a: seq<int>, delta: int)
    requires ValidParams(pp) && |a| == |g| == |h| && AllOrder(pp.g, pp.l, g)
    requires forall i :: 0 <= i < |g| ==> h[i] == Smul(pp.g, s, g[i])
    ensures var c := pp.g.add(ActMsm(pp, ScaleVec(r, a), g), Act(pp, r, pp.base));
      pp.g.add(c, Smul(pp.g, delta, pp.g.add(Smul(pp.g, s, pp.base), Msm(pp.g, a, h))))
        == Smul(pp.g, delta * s + r, pp.g.add(pp.base, Msm(pp.g, a, g)))
  {
    hide IsPrime, Cong, IsGroup, Act, ActMsm;
    var G_ := pp.g;
    var A := Msm(G_, a, g);
    var X := G_.add(pp.base, A);
    ActMsmIsMsm(pp, ScaleVec(r, a), g);
    ActIsSmul(pp, r, pp.base);
    MsmScale(G_, r, a, g);
    Comm(G_, Smul(G_, r, A), Smul(G_, r, pp.base));
    SmulDist(G_, r, pp.base, A);
    MsmOfMultiples(G_, a, g, h, s);
    MsmScale(G_, s, a, g);
    SmulDist(G_, s, pp.base, A);
    SmulMul(G_, delta, s, X);
    SmulAdd(G_, r, delta * s, X);
    assert delta * s + r == r + delta * s;
  }

  /** Special soundness in the prime-order subgroup: two accepting transcripts with the same
      commitment and weights but different challenges determine s with
      pk + sum a_i h_i = s (G + sum a_i g_i). */
  lemma DdhSpecialSoundnessInSubgroup<G(!new), C>(pp: Params<G, C>, pk: G, g: seq<G>, h: seq<G>, a: seq<int>, c: G,
                                                  delta: int, z: int, delta': int, z': int) returns (s: int)
    requires ValidParams(pp) && |a| == |g| == |h|
    requires Smul(pp.g, pp.l, pk) == pp.g.zero && AllOrder(pp.g, pp.l, g) && AllOrder(pp.g, pp.l, h)
    requires DdhEquation(pp, pk, g, h, a, c, delta, z) && DdhEquation(pp, pk, g, h, a, c, delta', z')
    requires !Cong(pp.l, delta, delta')
    ensures pp.g.add(pk, Msm(pp.g, a, h)) == Smul(pp.g, s, pp.g.add(pp.base, Msm(pp.g, a, g)))
  {
    hide IsPrime, Cong, DdhEquation, Act, ActMsm, IsGroup, Smul, Msm, AllOrder;
    var G_, l := pp.g, pp.l;
    var H, X := G_.add(pk, Msm(G_, a, h)), G_.add(pp.base, Msm(G_, a, g));
    DdhUnfold(pp, pk, g, h, a, c, delta, z);
    DdhUnfold(pp, pk, g, h, a, c, delta', z');
    if Cong(l, delta - delta', 0) { CongBy(l, delta, delta', delta - delta', 0, 1); }
    SubtractEquations(G_, c, delta, delta', H, z, z', X);
    MsmOrder(G_, l, a, h);
    SmulDist(G_, l, pk, Msm(G_, a, h));
    Unit(G_, G_.zero);
    s := DivideMultiple(G_, l, delta - delta', H, z - z', X);
  }

  /** Special soundness in the whole group: 8 (pk + sum a_i h_i) = s 8 (G + sum a_i g_i). */
  lemma DdhSpecialSoundness<G(!new), C>(pp: Params<G, C>, pk: G, g: seq<G>, h: seq<G>, a: seq<int>, c: G,
                                        delta: int, z: int, delta': int, z': int) returns (s: int)
    requires ValidParams(pp) && |a| == |g| == |h| && CofactorAt(pp, pk)
    requires (forall i :: 0 <= i < |g| ==> CofactorAt(pp, g[i])) && (forall i :: 0 <= i < |h| ==> CofactorAt(pp, h[i]))
    requires DdhEquation(pp, pk, g, h, a, c, delta, z) && DdhEquation(pp, pk, g, h, a, c, delta', z')
    requires !Cong(pp.l, delta, delta')
    ensures Clear(pp.g, pp.g.add(pk, Msm(pp.g, a, h))) == Smul(pp.g, s, Clear(pp.g, pp.g.add(pp.base, Msm(pp.g, a, g))))
  {
    hide IsPrime, Cong, DdhEquation, Smul, Msm, Clear;
    var G_, q := pp.g, ClearedParams(pp);
    var g8, h8 := ClearAll(G_, g), ClearAll(G_, h);
    ClearedIsValid(pp);
    ClearedDdh(pp, pk, g, h, a, c, delta, z);
    ClearedDdh(pp, pk, g, h, a, c, delta', z');
    ClearOrder(pp, pk);
    forall i | 0 <= i < |g| ensures Smul(G_, pp.l, g8[i]) == G_.zero { ClearOrder(pp, g[i]); }
    forall i | 0 <= i < |h| ensures Smul(G_, pp.l, h8[i]) == G_.zero { ClearOrder(pp, h[i]); }
    s := DdhSpecialSoundnessInSubgroup(q, Clear(G_, pk), g8, h8, a, Clear(G_, c), delta, z, delta', z');
    ClearMsm(G_, a, g);
    ClearMsm(G_, a, h);
    ClearAdd(G_, pk, Msm(G_, a, h));
    ClearAdd(G_, pp.base, Msm(G_, a, g));
  }

  lemma ClearedDdh<G(!new), C>(pp: Params<G, C>, pk: G, g: seq<G>, h: seq<G>, a: seq<int>, c: G, delta: int, z: int)
    requires ValidParams(pp) && |a| == |g| == |h| && DdhEquation(pp, pk, g, h, a, c, delta, z)
    ensures var G_ := pp.g;
      DdhEquation(ClearedParams(pp), Clear(G_, pk), ClearAll(G_, g), ClearAll(G_, h), a, Clear(G_, c), delta, z)
  {
    hide IsPrime, Cong, Act, Clear, ScaleVec;
    var G_ := pp.g;
    var left, right := G_.add(c, Act(pp, delta, pk)), Act(pp, z, pp.base);
    ClearAdd(G_, left, G_.neg(right));
    ClearNeg(G_, right);
    ClearAdd(G_, c, Act(pp, delta, pk));
    ClearedAct(pp, delta, pk);
    ClearedAct(pp, z, pp.base);
    ClearMsm(G_, CanonVec(pp.l, ScaleVec(z, a) + ScaleVec(-delta, a)), g + h);
    assert ClearAll(G_, g + h) == ClearAll(G_, g) + ClearAll(G_, h);
  }

  /** The cofactor is needed: for the key s G + T, with T of order dividing 8, the challenges 8
      and 16 are answered, and the key is no multiple of G. */
  lemma TorsionKeyAnswered<G(!new), C>(pp: Params<G, C>, T: G, s: int, r: int)
    requires ValidParams(pp) && pp.l > 16 && T != pp.g.zero && Clear(pp.g, T) == pp.g.zero
    ensures var pk, c := pp.g.add(Smul(pp.g, s, pp.base), T), Smul(pp.g, r, pp.base);
      && !Cong(pp.l, 8, 16) && (forall k :: pk != Smul(pp.g, k, pp.base))
      && DdhEquation(pp, pk, [], [], [], c, 8, 8 * s + r) && DdhEquation(pp, pk, [], [], [], c, 16, 16 * s + r)
  {
    hide IsPrime, Cong, Smul, Clear, DdhEquation, IsGroup;
    var g, B := pp.g, pp.base;
    var pk := g.add(Smul(g, s, B), T);
    SmulOrder(g, pp.l, s, B);
    ShiftedIsOutside(g, pp.l, Smul(g, s, B), T);
    forall k ensures pk != Smul(g, k, B) { SmulOrder(g, pp.l, k, B); }
    EightIsUnit(pp.l);
    if Cong(pp.l, 8, 16) { CongBy(pp.l, 8, 0, 8, 16, -1); }
    TorsionKeyAt(pp, T, s, r, 1);
    TorsionKeyAt(pp, T, s, r, 2);
  }

  lemma TorsionKeyAt<G(!new), C>(pp: Params<G, C>, T: G, s: int, r: int, k: nat)
    requires ValidParams(pp) && 8 * k < pp.l && Clear(pp.g, T) == pp.g.zero
    ensures DdhEquation(pp, pp.g.add(Smul(pp.g, s, pp.base), T), [], [], [], Smul(pp.g, r, pp.base), 8 * k,
      8 * k * s + r)
  {
    hide IsPrime, Cong, Smul, Clear, IsGroup, Act, DdhEquation, Canonical;
    var g, B, d := pp.g, pp.base, 8 * k;
    var P := Smul(g, s, B);
    SmallWeight(pp, k, P, T);
    SmulMul(g, d, s, B);
    ActIsSmul(pp, d * s + r, B);
    SmulAdd(g, d * s, r, B);
    Comm(g, Smul(g, d * s, B), Smul(g, r, B));
    EmptyEquation(pp, g.add(P, T), Smul(g, r, B), d, d * s + r);
  }

  lemma EmptyEquation<G(!new), C>(pp: Params<G, C>, pk: G, c: G, delta: int, z: int)
    requires ValidParams(pp)
    ensures DdhEquation(pp, pk, [], [], [], c, delta, z) <==> pp.g.add(c, Act(pp, delta, pk)) == Act(pp, z, pp.base)
  {
    hide IsPrime, Cong, IsGroup, Act;
    var e: seq<int> := [];
    assert ScaleVec(z, e) + ScaleVec(-delta, e) == [];
    assert CanonVec(pp.l, e) == [] && Msm(pp.g, [], []) == pp.g.zero;
    MinusZero(pp.g, pp.g.add(c, Act(pp, delta, pk)), Act(pp, z, pp.base));
  }

  lemma DivideMultiple<G(!new)>(g: Group<G>, l: int, d: int, H: G, z: int, X: G) returns (s: int)
    requires IsGroup(g) && IsPrime(l) && !Cong(l, d, 0)
    requires Smul(g, l, H) == g.zero && Smul(g, d, H) == Smul(g, z, X)
    ensures H == Smul(g, s, X)
  {
    hide IsPrime, Cong, IsGroup;
    var w := InverseExists(l, d);
    s := w * z;
    SmulMul(g, w, d, H);
    SmulMul(g, w, z, X);
    assert w * d == d * w;
    SmulCong(g, l, w * d, 1, H);
    SmulBasics(g, H);
  }

  lemma SubtractEquations<G(!new)>(g: Group<G>, c: G, d: int, d': int, H: G, z: int, z': int, X: G)
    requires IsGroup(g)
    requires g.add(c, Smul(g, d, H)) == Smul(g, z, X) && g.add(c, Smul(g, d', H)) == Smul(g, z', X)
    ensures Smul(g, d - d', H) == Smul(g, z - z', X)
  {
    SmulAdd(g, d', d - d', H);
    SmulAdd(g, z', z - z', X);
    Assoc(g, c, Smul(g, d', H), Smul(g, d - d', H));
    CancelAdd(g, Smul(g, z', X), Smul(g, d - d', H), Smul(g, z - z', X));
  }

  // ---------- the verifier's verdicts ----------

  /** What the three verdicts mean, equation written out: the verifier panics where the proof
      point does not decode or the lists differ, and otherwise accepts exactly when
      c + delta pk - z G = sum (z a_i) g_i + sum (-delta a_i) h_i. */
  lemma DdhVerdictMeans<G(!new), C>(pp: Params<G, C>, pk: G, g: seq<G>, h: seq<G>, gs: seq<C>, hs: seq<C>,
                                    proof: DdhProof<C>)
    requires ValidParams(pp)
    ensures var verdict := DdhVerify(pp, pk, g, h, gs, hs, proof);
      var ha := pp.hash([PointBytes(pp.enc(pk))] + PointChunks(gs) + PointChunks(hs));
      var delta := pp.hash([PointBytes(proof.c), DigestBytes(ha)]);
      if pp.dec(proof.c).None? || |g| != |h| then verdict == Panic
      else
        && |pp.expand(ha, |g|)| == |g|
        && verdict == if pp.g.add(pp.g.add(pp.dec(proof.c).value, Act(pp, delta, pk)),
                                  pp.g.neg(Act(pp, proof.z, pp.base)))
                      == ActMsm(pp, ScaleVec(proof.z, pp.expand(ha, |g|)) + ScaleVec(-delta, pp.expand(ha, |g|)), g + h)
                      then Accept else Reject
  {
    hide Act, ActMsm, IsPrime, IsGroup;
    assert ExpandAt(pp, pp.hash([PointBytes(pp.enc(pk))] + PointChunks(gs) + PointChunks(hs)), |g|);
  }

  /** Against an honest commitment r X, with X = G + sum a_i g_i not zero, exactly one response
      modulo l is accepted, and every other one is rejected. */
  lemma DdhResponseUnique<G(!new), C>(pp: Params<G, C>, g: seq<G>, h: seq<G>, gs: seq<C>, hs: seq<C>,
                                      s: int, r: int, z: int)
    requires ValidParams(pp) && |g| == |h| && AllOrder(pp.g, pp.l, g)
    requires forall i :: 0 <= i < |g| ==> h[i] == Smul(pp.g, s, g[i])
    requires var a := pp.expand(DdhSeed(pp, Smul(pp.g, s, pp.base), gs, hs), |g|);
      |a| == |g| && pp.g.add(pp.base, Msm(pp.g, a, g)) != pp.g.zero
    ensures var pk := Smul(pp.g, s, pp.base); var honest := DdhProve(pp, pk, g, gs, hs, s, r);
      DdhVerify(pp, pk, g, h, gs, hs, honest.(z := z)) == if Cong(pp.l, z, honest.z) then Accept else Reject
  {
    hide IsPrime, Cong, DdhSeed, DdhDelta, DdhEquation, IsGroup, Act, ActMsm, Smul, Msm, AllOrder, Canonical;
    var G_, pk := pp.g, Smul(pp.g, s, pp.base);
    var ha := DdhSeed(pp, pk, gs, hs);
    var a := pp.expand(ha, |g|);
    var c := G_.add(ActMsm(pp, ScaleVec(r, a), g), Act(pp, r, pp.base));
    assert CodecAt(pp, c);
    var delta := DdhDelta(pp, pp.enc(c), ha);
    MultiplesOrder(G_, pp.l, g, h, s);
    SmulOrder(G_, pp.l, s, pp.base);
    DdhUnfold(pp, pk, g, h, a, c, delta, z);
    HonestSides(pp, g, h, s, r, a, delta);
    SameIffCong(pp, a, g, delta * s + r, z);
  }

  lemma SameIffCong<G(!new), C>(pp: Params<G, C>, a: seq<int>, g: seq<G>, z: int, z': int)
    requires ValidParams(pp) && |a| == |g| && AllOrder(pp.g, pp.l, g)
    requires pp.g.add(pp.base, Msm(pp.g, a, g)) != pp.g.zero
    ensures var X := pp.g.add(pp.base, Msm(pp.g, a, g)); Smul(pp.g, z, X) == Smul(pp.g, z', X) <==> Cong(pp.l, z', z)
  {
    hide IsPrime, Cong, IsGroup, Smul, Msm;
    var X := pp.g.add(pp.base, Msm(pp.g, a, g));
    assert Smul(pp.g, pp.l, X) == pp.g.zero by {
      MsmOrder(pp.g, pp.l, a, g);
      SmulDist(pp.g, pp.l, pp.base, Msm(pp.g, a, g));
      Unit(pp.g, pp.g.zero);
    }
    if Smul(pp.g, z, X) == Smul(pp.g, z', X) { SameMultiple(pp.g, pp.l, z', z, X); }
    if Cong(pp.l, z', z) { SmulCong(pp.g, pp.l, z', z, X); }
  }

  /** Two accepting verdicts under two transcript hashes that give the same weights and different
      challenges for one commitment: 8 (pk + sum a_i h_i) = s 8 (G + sum a_i g_i). */
  lemma DdhSoundness<G(!new), C>(pp: Params<G, C>, hash: seq<Chunk<C>> -> int, hash': seq<Chunk<C>> -> int, pk: G,
                                 g: seq<G>, h: seq<G>, gs: seq<C>, hs: seq<C>, c: C, z: int, z': int)
    returns (a: seq<int>, s: int)
    requires ValidParams(pp) && CofactorAt(pp, pk)
    requires (forall i :: 0 <= i < |g| ==> CofactorAt(pp, g[i])) && (forall i :: 0 <= i < |h| ==> CofactorAt(pp, h[i]))
    requires DdhVerify(With(pp, hash), pk, g, h, gs, hs, DdhProof(c, z)) == Accept
    requires DdhVerify(With(pp, hash'), pk, g, h, gs, hs, DdhProof(c, z')) == Accept
    requires var ha, ha' := DdhSeed(With(pp, hash), pk, gs, hs), DdhSeed(With(pp, hash'), pk, gs, hs);
      && pp.expand(ha, |g|) == pp.expand(ha', |g|)
      && !Cong(pp.l, DdhDelta(With(pp, hash), c, ha), DdhDelta(With(pp, hash'), c, ha'))
    ensures a == pp.expand(DdhSeed(With(pp, hash), pk, gs, hs), |g|) && |a| == |g| == |h|
    ensures Clear(pp.g, pp.g.add(pk, Msm(pp.g, a, h))) == Smul(pp.g, s, Clear(pp.g, pp.g.add(pp.base, Msm(pp.g, a, g))))
  {
    hide IsPrime, Cong, IsGroup, DdhSeed, DdhDelta, Act, ActMsm, Smul, Msm, Clear, CofactorAt;
    var ha, ha' := DdhSeed(With(pp, hash), pk, gs, hs), DdhSeed(With(pp, hash'), pk, gs, hs);
    a := pp.expand(ha, |g|);
    assert ExpandAt(pp, ha, |g|);
    var delta, delta' := DdhDelta(With(pp, hash), c, ha), DdhDelta(With(pp, hash'), c, ha');
    EquationHashFree(pp, hash, pk, g, h, a, pp.dec(c).value, delta, z);
    EquationHashFree(pp, hash', pk, g, h, a, pp.dec(c).value, delta', z');
    s := DdhSpecialSoundness(pp, pk, g, h, a, pp.dec(c).value, delta, z, delta', z');
  }

  lemma EquationHashFree<G(!new), C>(pp: Params<G, C>, hash: seq<Chunk<C>> -> int, pk: G, g: seq<G>, h: seq<G>,
                                     a: seq<int>, c: G, delta: int, z: int)
    requires pp.l > 0 && |a| == |g| == |h|
    ensures DdhEquation(With(pp, hash), pk, g, h, a, c, delta, z) == DdhEquation(pp, pk, g, h, a, c, delta, z)
  {
    hide Smul, Msm, Canonical;
  }
}
