/** The adapted shuffle argument and the batched check of its commitment equations
    (src/aok.rs). */
module AdaptedShuffle {
  import opened Wrappers
  import opened Arith
  import opened Fermat
  import opened Folds
  import opened Groups
  import opened ShuffleArgument

  datatype AdaptedHint<G> = AdaptedHint(
    cPi: G, cD: G, d: seq<int>, rD: int, rPi: int, rZ: int, u: int, u2: int, known: KnownHint<G>)

  datatype AdaptedProof<C> = AdaptedProof(
    cPi: C, cD: C, gD: C, cZ: C, gU: C, cU: C, x: seq<int>, v: int, v2: int, psi: KnownProof<C>)

  /** The prover's random draws. */
  datatype Coins = Coins(d: seq<int>, rD: int, rPi: int, rZ: int, u: int, u2: int,
                         kd: seq<int>, kdraws: seq<int>, krD: int, krDelta: int, krA: int)

  predicate ValidCoins(c: Coins, n: nat) {
    |c.d| == |c.kd| == |c.kdraws| == n
  }

  function Indices(pi: seq<nat>): (r: seq<int>)
    ensures |r| == |pi| && forall i :: 0 <= i < |pi| ==> r[i] == pi[i]
  {
    seq(|pi|, i requires 0 <= i < |pi| => pi[i])
  }

  function Prepare<G, C>(pp: Params<G, C>, pi: seq<nat>, c: Coins): AdaptedHint<G>
    requires pp.l > 0 && |pi| == |pp.f| && ValidCoins(c, |pp.f|)
  {
    AdaptedHint(Commit(pp, Indices(pi), c.rPi), Commit(pp, c.d, c.rD), c.d, c.rD, c.rPi, c.rZ, c.u, c.u2,
                PrepareKnown(pp, c.kd, c.kdraws, c.krD, c.krDelta, c.krA))
  }

  function ChallengeZ<G, C>(pp: Params<G, C>, pk: G, gs: seq<C>, hs: seq<C>, cPi: C, cD: C, gD: C): int {
    pp.hash([PointBytes(pp.enc(pk))] + PointChunks(gs) + PointChunks(hs)
            + [PointBytes(cPi), PointBytes(cD), PointBytes(gD)])
  }

  function ChallengeDelta<G, C>(pp: Params<G, C>, x: seq<int>, cZ: C, gU: C, cU: C, hz: int): int
    requires pp.l > 0
  {
    pp.hash(ScalarChunks(pp.l, x) + [PointBytes(cZ), PointBytes(gU), PointBytes(cU), DigestBytes(hz)])
  }

  /** z_i + delta i. */
  function Rho(z: seq<int>, delta: int): (r: seq<int>)
    ensures |r| == |z| && forall i :: 0 <= i < |z| ==> r[i] == z[i] + delta * i
  {
    seq(|z|, i requires 0 <= i < |z| => z[i] + delta * i)
  }

  /** The challenges and points both sides work with. */
  datatype Derived<G> = Derived(
    z: seq<int>, delta: int, x: int, e: int, zRho: seq<int>,
    cD: G, gD: G, cZ: G, gU: G, cU: G, cRho: G, kcD: G, kcDelta: G, kcA: G)

  predicate Fits<G, C>(pp: Params<G, C>, hint: AdaptedHint<G>, g: seq<G>, pi: seq<nat>) {
    && |g| == |pi| == |hint.d| == |hint.known.d| == |hint.known.delta| == |pp.f|
    && forall j :: 0 <= j < |pi| ==> pi[j] < |g|
  }

  /** The prover's side of the transcript. */
  function ProverView<G, C>(pp: Params<G, C>, pk: G, hint: AdaptedHint<G>, g: seq<G>, gs: seq<C>, hs: seq<C>,
                            s: int, pi: seq<nat>): Derived<G>
    requires pp.l > 0 && Fits(pp, hint, g, pi)
    requires forall d: int, n: nat :: ExpandAt(pp, d, n)
  {
    var gD := ActMsm(pp, hint.d, g);
    var hz := ChallengeZ(pp, pk, gs, hs, pp.enc(hint.cPi), pp.enc(hint.cD), pp.enc(gD));
    assert ExpandAt(pp, hz, |g|);
    var z := pp.expand(hz, |g|);
    var zp := Gather(z, pi);
    var cZ := Commit(pp, zp, hint.rZ);
    var gU := Act(pp, hint.u, pp.base);
    var cU := pp.g.add(Act(pp, -hint.u, cZ), Act(pp, hint.u2, pp.base));
    var delta := ChallengeDelta(pp, AddVec(ScaleVec(s, zp), hint.d), pp.enc(cZ), pp.enc(gU), pp.enc(cU), hz);
    var cRho := pp.g.add(cZ, Act(pp, delta, hint.cPi));
    var zRho := Rho(z, delta);
    var x := KnownX(pp, zRho, cRho);
    var kcA := Commit(pp, CrossTerms(hint.known, zRho, pi, x), hint.known.rA);
    var e := KnownE(pp, pp.enc(hint.known.cD), pp.enc(hint.known.cDelta), pp.enc(kcA), x);
    Derived(z, delta, x, e, zRho, hint.cD, gD, cZ, gU, cU, cRho, hint.known.cD, hint.known.cDelta, kcA)
  }

  function ProveAdapted<G, C>(pp: Params<G, C>, pk: G, hint: AdaptedHint<G>, g: seq<G>, gs: seq<C>, hs: seq<C>,
                              s: int, pi: seq<nat>): AdaptedProof<C>
    requires pp.l > 0 && Fits(pp, hint, g, pi)
    requires forall d: int, n: nat :: ExpandAt(pp, d, n)
  {
    var t := ProverView(pp, pk, hint, g, gs, hs, s, pi);
    ViewSize(pp, pk, hint, g, gs, hs, s, pi);
    AdaptedProof(
      pp.enc(hint.cPi), pp.enc(hint.cD), pp.enc(t.gD), pp.enc(t.cZ), pp.enc(t.gU), pp.enc(t.cU),
      AddVec(ScaleVec(s, Gather(t.z, pi)), hint.d),
      s * t.delta + hint.u, (s * hint.rZ + hint.rD) * t.delta + hint.u2,
      ProveKnown(pp, hint.known, t.zRho, t.cRho, pi, hint.rZ + hint.rPi * t.delta))
  }

  lemma ViewSize<G, C>(pp: Params<G, C>, pk: G, hint: AdaptedHint<G>, g: seq<G>, gs: seq<C>, hs: seq<C>, s: int,
                       pi: seq<nat>)
    requires pp.l > 0 && Fits(pp, hint, g, pi)
    requires forall d: int, n: nat :: ExpandAt(pp, d, n)
    ensures var t := ProverView(pp, pk, hint, g, gs, hs, s, pi);
      |t.z| == |t.zRho| == |pi| && t.zRho == Rho(t.z, t.delta)
  {
    var gD := ActMsm(pp, hint.d, g);
    assert ExpandAt(pp, ChallengeZ(pp, pk, gs, hs, pp.enc(hint.cPi), pp.enc(hint.cD), pp.enc(gD)), |g|);
  }

  function Derive<G, C>(pp: Params<G, C>, pk: G, n: nat, gs: seq<C>, hs: seq<C>,
                        proof: AdaptedProof<C>): Option<Derived<G>>
    requires pp.l > 0
  {
    var hz := ChallengeZ(pp, pk, gs, hs, proof.cPi, proof.cD, proof.gD);
    var z := pp.expand(hz, n);
    var delta := ChallengeDelta(pp, proof.x, proof.cZ, proof.gU, proof.cU, hz);
    var (cPi, cD, gD) := (pp.dec(proof.cPi), pp.dec(proof.cD), pp.dec(proof.gD));
    var (cZ, gU, cU) := (pp.dec(proof.cZ), pp.dec(proof.gU), pp.dec(proof.cU));
    var (kcD, kcDelta, kcA) := (pp.dec(proof.psi.cD), pp.dec(proof.psi.cDelta), pp.dec(proof.psi.cA));
    if cPi.None? || cD.None? || gD.None? || cZ.None? || gU.None? || cU.None?
       || kcD.None? || kcDelta.None? || kcA.None? then None
    else
      var cRho := pp.g.add(cZ.value, Act(pp, delta, cPi.value));
      var zRho := Rho(z, delta);
      var x := KnownX(pp, zRho, cRho);
      var e := KnownE(pp, proof.psi.cD, proof.psi.cDelta, proof.psi.cA, x);
      Some(Derived(z, delta, x, e, zRho, cD.value, gD.value, cZ.value, gU.value, cU.value, cRho,
                   kcD.value, kcDelta.value, kcA.value))
  }

  function Min(a: int, b: int): int {
    if a <= b then a else b
  }

  /** The izip of the three response vectors, weighted; it stops at the shortest. */
  function BatchVector(a1: int, a2: int, delta: int, f: seq<int>, fDelta: seq<int>, x: seq<int>): (r: seq<int>)
    ensures |r| == Min(|f|, Min(|fDelta|, |x|))
  {
    seq(Min(|f|, Min(|fDelta|, |x|)), i requires 0 <= i < Min(|f|, Min(|fDelta|, |x|)) =>
      a1 * f[i] + a2 * fDelta[i] + x[i] * delta)
  }

  /** The three combined commitments. */
  function Com1<G, C>(pp: Params<G, C>, t: Derived<G>): G
    requires pp.l > 0
  {
    pp.g.add(Act(pp, t.e, t.cRho), t.kcD)
  }

  function Com2<G, C>(pp: Params<G, C>, t: Derived<G>): G
    requires pp.l > 0
  {
    pp.g.add(Act(pp, t.e, t.kcA), t.kcDelta)
  }

  function Com3<G, C>(pp: Params<G, C>, t: Derived<G>, v: int, v2: int): G
    requires pp.l > 0
  {
    pp.g.add(pp.g.add(pp.g.add(Act(pp, v, t.cZ), Act(pp, t.delta, t.cD)), t.cU), pp.g.neg(Act(pp, v2, pp.base)))
  }

  function BatchLeft<G, C>(pp: Params<G, C>, a1: int, a2: int, c1: G, c2: G, c3: G): G
    requires pp.l > 0
  {
    pp.g.add(pp.g.add(Act(pp, a1, c1), Act(pp, a2, c2)), c3)
  }

  function NegVec(z: seq<int>): (r: seq<int>)
    ensures |r| == |z| && forall i :: 0 <= i < |z| ==> r[i] == -z[i]
  {
    seq(|z|, i requires 0 <= i < |z| => -z[i])
  }

  /** verify_shuffle_adapted: Panic where an unwrap, an index or a length assertion fails. */
  function VerifyAdapted<G(==), C>(pp: Params<G, C>, pk: G, g: seq<G>, h: seq<G>, gs: seq<C>, hs: seq<C>,
                               proof: AdaptedProof<C>, a1: int, a2: int): Verdict
    requires pp.l > 2
    requires forall d: int, n: nat :: ExpandAt(pp, d, n)
  {
    var n := |g|;
    var derived := Derive(pp, pk, n, gs, hs, proof);
    if derived.None? then Panic
    else
      var t := derived.value;
      assert ExpandAt(pp, ChallengeZ(pp, pk, gs, hs, proof.cPi, proof.cD, proof.gD), n);
      if |proof.psi.f| == 0 || |proof.psi.f| < n || |proof.psi.fDelta| < n - 1 then Panic
      else if !FinalCheck(pp.l, t.zRho, proof.psi.f, proof.psi.fDelta, t.e, t.x) then Reject
      else if Act(pp, proof.v, pp.base) != pp.g.add(t.gU, Act(pp, t.delta, pk)) then Reject
      else
        var sum := BatchVector(a1, a2, t.delta, proof.psi.f, proof.psi.fDelta, proof.x);
        if |sum| != |pp.f| then Panic
        else if BatchLeft(pp, a1, a2, Com1(pp, t), Com2(pp, t), Com3(pp, t, proof.v, proof.v2))
             != Commit(pp, sum, proof.psi.z * a1 + proof.psi.zDelta * a2) then Reject
        else if |proof.x| + |t.z| != |g| + |h| then Panic
        else if t.gD != ActMsm(pp, proof.x + NegVec(t.z), g + h) then Reject
        else Accept
  }

  // ---------- completeness ----------

  /** The statement an honest prover holds a witness for. */
  ghost predicate HonestStatement<G>(g: Group<G>, l: int, base: G, pk: G, gs: seq<G>, hs: seq<G>, s: int,
                                     pi: seq<nat>) {
    && pk == Smul(g, s, base)
    && IsPermutation(pi) && |pi| == |gs| == |hs|
    && AllOrder(g, l, gs)
    && forall i :: 0 <= i < |pi| ==> hs[pi[i]] == Smul(g, s, gs[i])
  }

  /** The verifier derives exactly the prover's view. */
  lemma DerivedIsView<G(!new), C>(pp: Params<G, C>, pk: G, hint: AdaptedHint<G>, g: seq<G>, gs: seq<C>, hs: seq<C>,
                                  s: int, pi: seq<nat>)
    requires ValidParams(pp) && Fits(pp, hint, g, pi)
    ensures Derive(pp, pk, |g|, gs, hs, ProveAdapted(pp, pk, hint, g, gs, hs, s, pi))
         == Some(ProverView(pp, pk, hint, g, gs, hs, s, pi))
  {
    hide IsPrime, IsGroup, Commit, Act, ActMsm, ChallengeZ, ChallengeDelta, KnownX, KnownE, CrossTerms, Gather, Rho;
    var t := ProverView(pp, pk, hint, g, gs, hs, s, pi);
    assert CodecAt(pp, hint.cPi) && CodecAt(pp, hint.cD) && CodecAt(pp, t.gD);
    assert CodecAt(pp, t.cZ) && CodecAt(pp, t.gU) && CodecAt(pp, t.cU);
    assert CodecAt(pp, t.kcD) && CodecAt(pp, t.kcDelta) && CodecAt(pp, t.kcA);
  }

  lemma KeyEquation<G(!new), C>(pp: Params<G, C>, s: int, delta: int, u: int)
    requires ValidParams(pp)
    ensures var pk := Smul(pp.g, s, pp.base);
      Act(pp, s * delta + u, pp.base) == pp.g.add(Act(pp, u, pp.base), Act(pp, delta, pk))
  {
    hide IsPrime, Cong, Act, Smul, IsGroup;
    var pk := Smul(pp.g, s, pp.base);
    SmulOrder(pp.g, pp.l, s, pp.base);
    ActIsSmul(pp, s * delta + u, pp.base);
    ActIsSmul(pp, u, pp.base);
    ActIsSmul(pp, delta, pk);
    SmulMul(pp.g, delta, s, pp.base);
    SmulAdd(pp.g, u, delta * s, pp.base);
    assert s * delta + u == u + delta * s;
  }

  lemma RhoCommitment<G(!new), C>(pp: Params<G, C>, z: seq<int>, pi: seq<nat>, delta: int, rZ: int, rPi: int)
    requires ValidParams(pp) && |z| == |pi| == |pp.f| && forall j :: 0 <= j < |pi| ==> pi[j] < |z|
    ensures pp.g.add(Commit(pp, Gather(z, pi), rZ), Act(pp, delta, Commit(pp, Indices(pi), rPi)))
         == Com(pp, Gather(Rho(z, delta), pi), rZ + rPi * delta)
  {
    hide IsPrime, Cong, Act, Com, Commit;
    CommitIsCom(pp, Gather(z, pi), rZ);
    CommitIsCom(pp, Indices(pi), rPi);
    ComScale(pp, delta, Indices(pi), rPi);
    ComAdd(pp, Gather(z, pi), rZ, ScaleVec(delta, Indices(pi)), delta * rPi);
    assert AddVec(Gather(z, pi), ScaleVec(delta, Indices(pi))) == Gather(Rho(z, delta), pi);
  }

  /** Com3 commits to delta x with randomness zero. */
  lemma ThirdCommitment<G(!new), C>(pp: Params<G, C>, t: Derived<G>, zp: seq<int>, d: seq<int>, s: int,
                                    rZ: int, rD: int, u: int, u2: int)
    requires ValidParams(pp) && |zp| == |d| == |pp.f|
    requires t.cZ == Commit(pp, zp, rZ) && t.cD == Commit(pp, d, rD)
    requires t.cU == pp.g.add(Act(pp, -u, t.cZ), Act(pp, u2, pp.base))
    ensures var x := AddVec(ScaleVec(s, zp), d);
      Com3(pp, t, s * t.delta + u, (s * rZ + rD) * t.delta + u2) == Com(pp, ScaleVec(t.delta, x), 0)
  {
    hide IsPrime, Cong, Act, Com, Commit, AddVec, ScaleVec, ZeroVec, IsGroup, Smul, ExpandAt, CodecAt, AllOrder;
    var n, delta := |pp.f|, t.delta;
    var v, v2 := s * delta + u, (s * rZ + rD) * delta + u2;
    CommitIsCom(pp, zp, rZ);
    CommitIsCom(pp, d, rD);
    ComScale(pp, v, zp, rZ);
    ComScale(pp, delta, d, rD);
    ComScale(pp, -u, zp, rZ);
    ActIsSmul(pp, u2, pp.base);
    BaseIsCom(pp, u2);
    ActIsSmul(pp, v2, pp.base);
    SmulNeg(pp.g, v2, pp.base);
    BaseIsCom(pp, -v2);
    FiveCommitments(pp, ScaleVec(v, zp), v * rZ, ScaleVec(delta, d), delta * rD,
                    ScaleVec(-u, zp), -u * rZ, ZeroVec(n), u2, ZeroVec(n), -v2);
    ThirdVector(zp, d, s, delta, u);
    ThirdRandomness(s, delta, u, u2, rZ, rD);
  }

  lemma FiveCommitments<G(!new), C>(pp: Params<G, C>, m1: seq<int>, r1: int, m2: seq<int>, r2: int,
                                    m3: seq<int>, r3: int, m4: seq<int>, r4: int, m5: seq<int>, r5: int)
    requires IsGroup(pp.g) && |m1| == |m2| == |m3| == |m4| == |m5| == |pp.f|
    ensures pp.g.add(pp.g.add(pp.g.add(Com(pp, m1, r1), Com(pp, m2, r2)),
                              pp.g.add(Com(pp, m3, r3), Com(pp, m4, r4))), Com(pp, m5, r5))
         == Com(pp, AddVec(AddVec(AddVec(m1, m2), AddVec(m3, m4)), m5), r1 + r2 + (r3 + r4) + r5)
  {
    hide Com, IsGroup;
    ComAdd(pp, m1, r1, m2, r2);
    ComAdd(pp, m3, r3, m4, r4);
    ComAdd(pp, AddVec(m1, m2), r1 + r2, AddVec(m3, m4), r3 + r4);
    ComAdd(pp, AddVec(AddVec(m1, m2), AddVec(m3, m4)), r1 + r2 + (r3 + r4), m5, r5);
  }

  lemma ThirdVector(zp: seq<int>, d: seq<int>, s: int, delta: int, u: int)
    requires |zp| == |d|
    ensures var a := AddVec(ScaleVec(s * delta + u, zp), ScaleVec(delta, d));
      var b := AddVec(ScaleVec(-u, zp), ZeroVec(|zp|));
      AddVec(AddVec(a, b), ZeroVec(|zp|)) == ScaleVec(delta, AddVec(ScaleVec(s, zp), d))
  {
    forall i | 0 <= i < |zp|
      ensures ((s * delta + u) * zp[i] + delta * d[i]) + (-u * zp[i] + 0) + 0 == delta * (s * zp[i] + d[i])
    {
      ThirdEntry(s, delta, u, zp[i], d[i]);
    }
  }

  lemma ThirdEntry(s: int, delta: int, u: int, z: int, d: int)
    ensures ((s * delta + u) * z + delta * d) + (-u * z + 0) + 0 == delta * (s * z + d)
  {
    assert (s * delta + u) * z == (s * delta) * z + u * z;
    assert (s * delta) * z == delta * (s * z);
  }

  lemma ThirdRandomness(s: int, delta: int, u: int, u2: int, rZ: int, rD: int)
    ensures ((s * delta + u) * rZ + delta * rD + (-u * rZ + u2)) + -((s * rZ + rD) * delta + u2) == 0
  {
    assert (s * delta + u) * rZ == (s * delta) * rZ + u * rZ;
    assert (s * delta) * rZ == (s * rZ) * delta;
    assert (s * rZ + rD) * delta == (s * rZ) * delta + rD * delta;
  }

  /** If the three equations hold, the weighted one does, whatever the weights. */
  lemma BatchFromParts<G(!new), C>(pp: Params<G, C>, a1: int, a2: int, delta: int,
                                   f: seq<int>, fd: seq<int>, x: seq<int>, z: int, zd: int)
    requires ValidParams(pp) && |f| == |fd| == |x| == |pp.f|
    ensures BatchLeft(pp, a1, a2, Com(pp, f, z), Com(pp, fd, zd), Com(pp, ScaleVec(delta, x), 0))
         == Commit(pp, BatchVector(a1, a2, delta, f, fd, x), z * a1 + zd * a2)
  {
    hide IsPrime, Cong, Act, Com, Commit, BatchVector, AddVec, ScaleVec;
    ComScale(pp, a1, f, z);
    ComScale(pp, a2, fd, zd);
    var b := AddVec(ScaleVec(a1, f), ScaleVec(a2, fd));
    VectorSizes(a1, f, fd);
    VectorSizes(a2, fd, f);
    VectorSizes(delta, x, b);
    VectorSizes(1, ScaleVec(a1, f), ScaleVec(a2, fd));
    ComAdd(pp, ScaleVec(a1, f), a1 * z, ScaleVec(a2, fd), a2 * zd);
    ComAdd(pp, b, a1 * z + a2 * zd, ScaleVec(delta, x), 0);
    BatchVectorSum(a1, a2, delta, f, fd, x);
    CommitIsCom(pp, BatchVector(a1, a2, delta, f, fd, x), z * a1 + zd * a2);
  }

  lemma VectorSizes(a: int, u: seq<int>, v: seq<int>)
    requires |u| == |v|
    ensures |ScaleVec(a, u)| == |u| == |AddVec(u, v)|
  {
  }

  lemma BatchVectorSum(a1: int, a2: int, delta: int, f: seq<int>, fd: seq<int>, x: seq<int>)
    requires |f| == |fd| == |x|
    ensures |BatchVector(a1, a2, delta, f, fd, x)| == |f|
    ensures AddVec(AddVec(ScaleVec(a1, f), ScaleVec(a2, fd)), ScaleVec(delta, x))
      == BatchVector(a1, a2, delta, f, fd, x)
  {
  }

  /** The last check: the sum over g and h collapses to the blinding sum, by reindexing
      the second half along the permutation. */
  lemma ReindexedSum<G(!new), C>(pp: Params<G, C>, g: seq<G>, h: seq<G>, z: seq<int>, d: seq<int>, s: int,
                                 pi: seq<nat>, pk: G)
    requires ValidParams(pp) && |z| == |d| == |g|
    requires HonestStatement(pp.g, pp.l, pp.base, pk, g, h, s, pi)
    ensures var x := AddVec(ScaleVec(s, Gather(z, pi)), d);
      ActMsm(pp, x + NegVec(z), g + h) == ActMsm(pp, d, g)
  {
    hide IsPrime, Cong, Act, ActMsm, Msm, Smul, IsGroup;
    var zp := Gather(z, pi);
    var x := AddVec(ScaleVec(s, zp), d);
    ShuffledOrder(pp, g, h, s, pi, pk);
    ActMsmIsMsm(pp, x + NegVec(z), g + h);
    ActMsmIsMsm(pp, d, g);
    MsmAppend(pp.g, x, g, NegVec(z), h);
    MsmPermuted(pp.g, NegVec(z), h, pi);
    MsmOfMultiples(pp.g, Gather(NegVec(z), pi), g, Gather(h, pi), s);
    MsmAdd(pp.g, x, ScaleVec(s, Gather(NegVec(z), pi)), g);
    VectorCancels(z, d, s, pi);
  }

  lemma VectorCancels(z: seq<int>, d: seq<int>, s: int, pi: seq<nat>)
    requires |z| == |d| == |pi| && forall i :: 0 <= i < |pi| ==> pi[i] < |z|
    ensures AddVec(AddVec(ScaleVec(s, Gather(z, pi)), d), ScaleVec(s, Gather(NegVec(z), pi))) == d
  {
    var a, b := AddVec(ScaleVec(s, Gather(z, pi)), d), ScaleVec(s, Gather(NegVec(z), pi));
    forall i | 0 <= i < |d| ensures AddVec(a, b)[i] == d[i] {
      assert a[i] == s * z[pi[i]] + d[i] && b[i] == s * -z[pi[i]];
      assert s * -z[pi[i]] == -(s * z[pi[i]]);
    }
  }

  lemma ShuffledOrder<G(!new), C>(pp: Params<G, C>, g: seq<G>, h: seq<G>, s: int, pi: seq<nat>, pk: G)
    requires ValidParams(pp) && HonestStatement(pp.g, pp.l, pp.base, pk, g, h, s, pi)
    ensures AllOrder(pp.g, pp.l, h) && AllOrder(pp.g, pp.l, g + h)
  {
    hide IsPrime, Cong;
    forall j | 0 <= j < |h|
      ensures Smul(pp.g, pp.l, h[j]) == pp.g.zero
    {
      PermutationIsSurjective(pi, |pi|);
      assert Iota(|pi|)[j] == j;
      assert j in multiset(pi);
      var i :| 0 <= i < |pi| && pi[i] == j;
      SmulOrder(pp.g, pp.l, s, g[i]);
    }
  }

  /** Scaling every point scales every coefficient. */
  lemma {:induction false} MsmOfMultiples<G(!new)>(g: Group<G>, ks: seq<int>, xs: seq<G>, ys: seq<G>, s: int)
    requires IsGroup(g) && |ks| == |xs| == |ys|
    requires forall i :: 0 <= i < |xs| ==> ys[i] == Smul(g, s, xs[i])
    ensures Msm(g, ks, ys) == Msm(g, ScaleVec(s, ks), xs)
  {
    if ks != [] {
      MsmOfMultiples(g, ks[1..], xs[1..], ys[1..], s);
      assert ScaleVec(s, ks)[1..] == ScaleVec(s, ks[1..]);
      SmulMul(g, ks[0], s, xs[0]);
      assert ks[0] * s == s * ks[0];
    }
  }

  /** Completeness, for every permutation, key, transcript, randomness and batching weights:
      the verifier accepts exactly when there are at least two entries or the first draw of
      the inner argument is zero. No condition on the challenge is needed. */
  lemma AdaptedCompleteness<G(!new), C>(pp: Params<G, C>, pk: G, g: seq<G>, h: seq<G>, gs: seq<C>, hs: seq<C>,
                                        s: int, pi: seq<nat>, coins: Coins, a1: int, a2: int)
    requires ValidParams(pp) && |pi| == |pp.f| > 0 && ValidCoins(coins, |pp.f|)
    requires HonestStatement(pp.g, pp.l, pp.base, pk, g, h, s, pi)
    ensures var proof := ProveAdapted(pp, pk, Prepare(pp, pi, coins), g, gs, hs, s, pi);
      VerifyAdapted(pp, pk, g, h, gs, hs, proof, a1, a2)
        == if |g| >= 2 || Cong(pp.l, coins.kd[0], 0) then Accept else Reject
  {
    hide IsPrime, IsGroup, Commit, Com, Act, ActMsm, ChallengeZ, ChallengeDelta, KnownX, KnownE, CrossTerms, FinalCheck,
      Com1, Com2, Com3, BatchLeft, BatchVector, Cong, Derive, MakeDelta, DeltaProducts, ProverView, AllOrder, Smul, Msm,
      AddVec, ScaleVec, Gather, NegVec;
    var hint := Prepare(pp, pi, coins);
    var known := hint.known;
    var t := ProverView(pp, pk, hint, g, gs, hs, s, pi);
    ViewSize(pp, pk, hint, g, gs, hs, s, pi);
    DerivedIsView(pp, pk, hint, g, gs, hs, s, pi);
    ViewParts(pp, pk, hint, g, gs, hs, s, pi);
    FinalCheckCompleteness(pp.l, known, t.zRho, pi, coins.kdraws, t.x, t.e);
    KeyEquation(pp, s, t.delta, hint.u);
    HonestAdaptedBatch(pp, pk, g, gs, hs, s, pi, coins, a1, a2);
    ReindexedSum(pp, g, h, t.z, hint.d, s, pi, pk);
  }

  /** The batched equation of an honest proof holds for every pair of weights. */
  lemma HonestAdaptedBatch<G(!new), C>(pp: Params<G, C>, pk: G, g: seq<G>, gs: seq<C>, hs: seq<C>,
                                       s: int, pi: seq<nat>, coins: Coins, a1: int, a2: int)
    requires ValidParams(pp) && |pi| == |pp.f| == |g| > 0 && ValidCoins(coins, |pp.f|) && IsPermutation(pi)
    ensures var proof := ProveAdapted(pp, pk, Prepare(pp, pi, coins), g, gs, hs, s, pi);
      var t := ProverView(pp, pk, Prepare(pp, pi, coins), g, gs, hs, s, pi);
      var sum := BatchVector(a1, a2, t.delta, proof.psi.f, proof.psi.fDelta, proof.x);
      && |sum| == |pp.f|
      && BatchLeft(pp, a1, a2, Com1(pp, t), Com2(pp, t), Com3(pp, t, proof.v, proof.v2))
         == Commit(pp, sum, proof.psi.z * a1 + proof.psi.zDelta * a2)
  {
    hide IsPrime, IsGroup, Commit, Com, Act, ActMsm, ChallengeZ, ChallengeDelta, KnownX, KnownE, CrossTerms,
      Com1, Com2, Com3, BatchLeft, BatchVector, Cong, MakeDelta, DeltaProducts, ProverView, ProveAdapted, AllOrder,
        Smul, Msm, AddVec, ScaleVec, Gather, NegVec;
    var hint := Prepare(pp, pi, coins);
    var known := hint.known;
    var proof := ProveAdapted(pp, pk, hint, g, gs, hs, s, pi);
    var t := ProverView(pp, pk, hint, g, gs, hs, s, pi);
    ViewSize(pp, pk, hint, g, gs, hs, s, pi);
    ViewParts(pp, pk, hint, g, gs, hs, s, pi);
    ResponseParts(pp, pk, hint, g, gs, hs, s, pi);
    RhoCommitment(pp, t.z, pi, t.delta, hint.rZ, hint.rPi);
    var a2s := CrossTerms(known, t.zRho, pi, t.x);
    CommitIsCom(pp, a2s, known.rA);
    KnownCommitments(pp, known, Gather(t.zRho, pi), a2s, hint.rZ + hint.rPi * t.delta, t.e);
    ThirdCommitment(pp, t, Gather(t.z, pi), hint.d, s, hint.rZ, hint.rD, hint.u, hint.u2);
    BatchFromParts(pp, a1, a2, t.delta, proof.psi.f, proof.psi.fDelta, proof.x, proof.psi.z, proof.psi.zDelta);
    BatchVectorSum(a1, a2, t.delta, proof.psi.f, proof.psi.fDelta, proof.x);
    UnfoldComs(pp, t);
  }

  lemma UnfoldComs<G, C>(pp: Params<G, C>, t: Derived<G>)
    requires pp.l > 0
    ensures Com1(pp, t) == pp.g.add(Act(pp, t.e, t.cRho), t.kcD)
    ensures Com2(pp, t) == pp.g.add(Act(pp, t.e, t.kcA), t.kcDelta)
  {
  }

  /** The prover's proof in terms of its view. */
  lemma ViewParts<G, C>(pp: Params<G, C>, pk: G, hint: AdaptedHint<G>, g: seq<G>, gs: seq<C>, hs: seq<C>, s: int,
                        pi: seq<nat>)
    requires pp.l > 0 && Fits(pp, hint, g, pi)
    requires forall d: int, n: nat :: ExpandAt(pp, d, n)
    ensures var t := ProverView(pp, pk, hint, g, gs, hs, s, pi);
      var proof := ProveAdapted(pp, pk, hint, g, gs, hs, s, pi);
      var psi := proof.psi;
      && |t.z| == |t.zRho| == |pi|
      && psi.f == AddVec(ScaleVec(t.e, Gather(t.zRho, pi)), hint.known.d)
      && psi.fDelta == AddVec(ScaleVec(t.e, CrossTerms(hint.known, t.zRho, pi, t.x)),
        DeltaProducts(hint.known.d, hint.known.delta))
      && psi.z == t.e * (hint.rZ + hint.rPi * t.delta) + hint.known.rD
      && psi.zDelta == t.e * hint.known.rA + hint.known.rDelta
      && t.cZ == Commit(pp, Gather(t.z, pi), hint.rZ) && t.cD == hint.cD
      && t.gD == ActMsm(pp, hint.d, g) && t.gU == Act(pp, hint.u, pp.base)
      && t.cU == pp.g.add(Act(pp, -hint.u, t.cZ), Act(pp, hint.u2, pp.base))
      && t.cRho == pp.g.add(t.cZ, Act(pp, t.delta, hint.cPi))
      && t.kcD == hint.known.cD && t.kcDelta == hint.known.cDelta
      && t.kcA == Commit(pp, CrossTerms(hint.known, t.zRho, pi, t.x), hint.known.rA)
  {
    hide Commit, Act, ActMsm, ChallengeZ, ChallengeDelta, KnownX, KnownE, CrossTerms, Gather, Rho;
    ViewSize(pp, pk, hint, g, gs, hs, s, pi);
  }

  lemma ResponseParts<G, C>(pp: Params<G, C>, pk: G, hint: AdaptedHint<G>, g: seq<G>, gs: seq<C>, hs: seq<C>, s: int,
                            pi: seq<nat>)
    requires pp.l > 0 && Fits(pp, hint, g, pi)
    requires forall d: int, n: nat :: ExpandAt(pp, d, n)
    ensures var t := ProverView(pp, pk, hint, g, gs, hs, s, pi);
      var proof := ProveAdapted(pp, pk, hint, g, gs, hs, s, pi);
      && |t.z| == |pi| && proof.x == AddVec(ScaleVec(s, Gather(t.z, pi)), hint.d)
      && proof.v == s * t.delta + hint.u && proof.v2 == (s * hint.rZ + hint.rD) * t.delta + hint.u2
  {
    hide Commit, Act, ActMsm, ChallengeZ, ChallengeDelta, KnownX, KnownE, CrossTerms, Gather, Rho, ProveKnown;
    ViewSize(pp, pk, hint, g, gs, hs, s, pi);
  }

  // ---------- the verdicts ----------

  /** The challenges and points the verifier derives, written out. */
  lemma DerivedMeans<G, C>(pp: Params<G, C>, pk: G, n: nat, gs: seq<C>, hs: seq<C>, proof: AdaptedProof<C>)
    requires pp.l > 0 && Derive(pp, pk, n, gs, hs, proof).Some?
    ensures var t := Derive(pp, pk, n, gs, hs, proof).value;
      var hz := pp.hash([PointBytes(pp.enc(pk))] + PointChunks(gs) + PointChunks(hs)
                        + [PointBytes(proof.cPi), PointBytes(proof.cD), PointBytes(proof.gD)]);
      && pp.dec(proof.cPi).Some? && pp.dec(proof.cD) == Some(t.cD) && pp.dec(proof.gD) == Some(t.gD)
      && pp.dec(proof.cZ) == Some(t.cZ) && pp.dec(proof.gU) == Some(t.gU) && pp.dec(proof.cU) == Some(t.cU)
      && pp.dec(proof.psi.cD) == Some(t.kcD) && pp.dec(proof.psi.cDelta) == Some(t.kcDelta)
      && pp.dec(proof.psi.cA) == Some(t.kcA)
      && t.z == pp.expand(hz, n)
      && t.delta == pp.hash(ScalarChunks(pp.l, proof.x)
                            + [PointBytes(proof.cZ), PointBytes(proof.gU), PointBytes(proof.cU), DigestBytes(hz)])
      && t.zRho == seq(|t.z|, i requires 0 <= i < |t.z| => t.z[i] + t.delta * i)
      && t.cRho == pp.g.add(t.cZ, Act(pp, t.delta, pp.dec(proof.cPi).value))
      && t.x == pp.hash([PointBytes(pp.enc(t.cRho))] + ScalarChunks(pp.l, t.zRho))
      && t.e == pp.hash([PointBytes(proof.psi.cD), PointBytes(proof.psi.cDelta), PointBytes(proof.psi.cA),
                         DigestBytes(t.x)])
  {
    hide Act;
  }

  /** The verdicts written out: four equations decide, in this order, between the places where
      the verifier panics. */
  lemma AdaptedVerdictMeans<G(!new), C>(pp: Params<G, C>, pk: G, g: seq<G>, h: seq<G>, gs: seq<C>, hs: seq<C>,
                                        proof: AdaptedProof<C>, a1: int, a2: int)
    requires ValidParams(pp)
    ensures var d, psi := Derive(pp, pk, |g|, gs, hs, proof), proof.psi;
      var verdict := VerifyAdapted(pp, pk, g, h, gs, hs, proof, a1, a2);
      var ready := d.Some? && 0 < |psi.f| && |g| <= |psi.f| && |g| - 1 <= |psi.fDelta|;
      if !ready then verdict == Panic
      else
        var t := d.value;
        var n := Min(|psi.f|, Min(|psi.fDelta|, |proof.x|));
        && |t.z| == |t.zRho| == |g|
        && var final := Cong(pp.l, FoldF(pp.l, psi.f, psi.fDelta, t.e, t.x, if |g| == 0 then 0 else |g| - 1),
                             t.e * Product(Shifted(t.zRho, t.x)));
           var key := Act(pp, proof.v, pp.base) == pp.g.add(t.gU, Act(pp, t.delta, pk));
           var batch := n == |pp.f| &&
             pp.g.add(pp.g.add(Act(pp, a1, pp.g.add(Act(pp, t.e, t.cRho), t.kcD)),
                               Act(pp, a2, pp.g.add(Act(pp, t.e, t.kcA), t.kcDelta))),
                      pp.g.add(pp.g.add(pp.g.add(Act(pp, proof.v, t.cZ), Act(pp, t.delta, t.cD)), t.cU),
                               pp.g.neg(Act(pp, proof.v2, pp.base))))
             == Commit(pp, seq(n, i requires 0 <= i < n => a1 * psi.f[i] + a2 * psi.fDelta[i] + proof.x[i] * t.delta),
                       psi.z * a1 + psi.zDelta * a2);
           var sized := |proof.x| + |t.z| == |g| + |h|;
           var points := sized && t.gD == ActMsm(pp, proof.x + NegVec(t.z), g + h);
           && (verdict == Accept <==> final && key && batch && points)
           && (verdict == Reject <==>
                 !final || !key || (n == |pp.f| && !batch) || (batch && sized && !points))
  {
    hide IsPrime, IsGroup, Cong, Act, ActMsm, Commit, FoldF, Product, Shifted, ChallengeZ, ChallengeDelta, KnownX,
      KnownE;
    DerivedSizes(pp, pk, |g|, gs, hs, proof);
    var d, psi := Derive(pp, pk, |g|, gs, hs, proof), proof.psi;
    hide Derive, BatchVector, CodecAt, AllOrder, Smul;
    if d.Some? { BatchVectorMeans(a1, a2, d.value.delta, psi.f, psi.fDelta, proof.x); }
  }

  lemma DerivedSizes<G, C>(pp: Params<G, C>, pk: G, n: nat, gs: seq<C>, hs: seq<C>, proof: AdaptedProof<C>)
    requires pp.l > 0 && forall d: int, n: nat :: ExpandAt(pp, d, n)
    ensures var d := Derive(pp, pk, n, gs, hs, proof); d.Some? ==> |d.value.z| == |d.value.zRho| == n
  {
    assert ExpandAt(pp, ChallengeZ(pp, pk, gs, hs, proof.cPi, proof.cD, proof.gD), n);
  }

  lemma BatchVectorMeans(a1: int, a2: int, delta: int, f: seq<int>, fDelta: seq<int>, x: seq<int>)
    ensures var n := Min(|f|, Min(|fDelta|, |x|));
      BatchVector(a1, a2, delta, f, fDelta, x)
        == seq(n, i requires 0 <= i < n => a1 * f[i] + a2 * fDelta[i] + x[i] * delta)
  {
  }
}
