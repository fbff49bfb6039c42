/** What the honest provers of src/aok.rs send, as equations in their secrets, their random
    draws and the transcript hash, and what a Diffie-Hellman proof tells besides its claim:
    nothing, because it can be written down without the key. */
module Provers {
  import opened Arith
  import opened Folds
  import opened Groups
  import opened ShuffleArgument
  import opened AdaptedShuffle
  import opened BatchSoundness

  // ---------- the known-content argument ----------

  /** What is prepared before the statement is known: blinders whose delta starts with d_0 and
      ends with zero, and commitments to d and to the products -delta_i d_(i+1). */
  lemma KnownHintIs<G(!new), C>(pp: Params<G, C>, d: seq<int>, draws: seq<int>, rD: int, rDelta: int, rA: int)
    requires ValidParams(pp) && |d| == |draws| == |pp.f|
    ensures var h, n := PrepareKnown(pp, d, draws, rD, rDelta, rA), |d|;
      && h.d == d && h.rD == rD && h.rDelta == rDelta && h.rA == rA && |h.delta| == n
      && (forall i :: 0 < i < n - 1 ==> h.delta[i] == draws[i])
      && (n >= 1 ==> h.delta[n - 1] == 0) && (n >= 2 ==> h.delta[0] == d[0])
      && h.cD == Com(pp, d, rD)
      && h.cDelta == Com(pp, seq(n, i requires 0 <= i < n => if i < n - 1 then -h.delta[i] * d[i + 1] else 0), rDelta)
  {
    hide IsPrime, IsGroup, Commit, Com;
    var h, n := PrepareKnown(pp, d, draws, rD, rDelta, rA), |d|;
    CommitIsCom(pp, d, rD);
    CommitIsCom(pp, DeltaProducts(d, h.delta), rDelta);
    assert DeltaProducts(d, h.delta)
      == seq(n, i requires 0 <= i < n => if i < n - 1 then -h.delta[i] * d[i + 1] else 0);
  }

  /** The proof: every permuted entry and every cross term under its own blinder, and both
      random values under theirs, at the challenge that hashes everything sent before. */
  lemma KnownProofIs<G(!new), C>(pp: Params<G, C>, h: KnownHint<G>, m: seq<int>, c: G, pi: seq<nat>, r: int)
    requires ValidParams(pp) && 0 < |m| == |pi| == |h.d| == |h.delta| == |pp.f|
    requires forall j :: 0 <= j < |pi| ==> pi[j] < |m|
    ensures var proof, n := ProveKnown(pp, h, m, c, pi, r), |m|;
      var x := pp.hash([PointBytes(pp.enc(c))] + ScalarChunks(pp.l, m));
      var a := seq(n, i requires 0 <= i < n =>
        if i < n - 1 then h.delta[i + 1] - (m[pi[i + 1]] - x) * h.delta[i] - PrefixProduct(m, pi, x, i) * h.d[i + 1]
        else 0);
      var e := pp.hash([PointBytes(pp.enc(h.cD)), PointBytes(pp.enc(h.cDelta)), PointBytes(proof.cA), DigestBytes(x)]);
      && proof.cD == pp.enc(h.cD) && proof.cDelta == pp.enc(h.cDelta) && proof.cA == pp.enc(Com(pp, a, h.rA))
      && |proof.f| == n && (forall i :: 0 <= i < n ==> proof.f[i] == e * m[pi[i]] + h.d[i])
      && |proof.fDelta| == n && (forall i :: 0 <= i < n - 1 ==> proof.fDelta[i] == e * a[i] - h.delta[i] * h.d[i + 1])
      && proof.z == e * r + h.rD && proof.zDelta == e * h.rA + h.rDelta
  {
    hide IsPrime, IsGroup, Commit, Com, PrefixProduct;
    var n, x := |m|, KnownX(pp, m, c);
    var a := seq(n, i requires 0 <= i < n =>
      if i < n - 1 then h.delta[i + 1] - (m[pi[i + 1]] - x) * h.delta[i] - PrefixProduct(m, pi, x, i) * h.d[i + 1]
      else 0);
    assert a == CrossTerms(h, m, pi, x);
    CommitIsCom(pp, a, h.rA);
    hide CrossTerm;
    var dp := DeltaProducts(h.d, h.delta);
    forall i | 0 <= i < n - 1
      ensures dp[i] == -(h.delta[i] * h.d[i + 1])
    {
      NegatedProduct(h.delta[i], h.d[i + 1]);
    }
  }

  lemma NegatedProduct(a: int, b: int)
    ensures -a * b == -(a * b)
  {
  }

  // ---------- the adapted argument ----------

  lemma AdaptedHintIs<G(!new), C>(pp: Params<G, C>, pi: seq<nat>, c: Coins)
    requires ValidParams(pp) && |pi| == |pp.f| && ValidCoins(c, |pp.f|)
    ensures var h := Prepare(pp, pi, c);
      && h.cPi == Com(pp, seq(|pi|, i requires 0 <= i < |pi| => pi[i] as int), c.rPi) && h.cD == Com(pp, c.d, c.rD)
      && h.d == c.d && h.rD == c.rD && h.rPi == c.rPi && h.rZ == c.rZ && h.u == c.u && h.u2 == c.u2
      && h.known == PrepareKnown(pp, c.kd, c.kdraws, c.krD, c.krDelta, c.krA)
  {
    hide IsPrime, IsGroup, Commit, Com;
    CommitIsCom(pp, Indices(pi), c.rPi);
    CommitIsCom(pp, c.d, c.rD);
    assert Indices(pi) == seq(|pi|, i requires 0 <= i < |pi| => pi[i] as int);
  }

  /** The proof of a shuffle with key s and permutation pi. */
  lemma AdaptedProofIs<G(!new), C>(pp: Params<G, C>, pk: G, hint: AdaptedHint<G>, g: seq<G>, gs: seq<C>, hs: seq<C>,
                                   s: int, pi: seq<nat>)
    requires ValidParams(pp) && Fits(pp, hint, g, pi) && AllOrder(pp.g, pp.l, g)
    ensures var proof, n := ProveAdapted(pp, pk, hint, g, gs, hs, s, pi), |pi|;
      var G_, B := pp.g, pp.base;
      var hz := pp.hash([PointBytes(pp.enc(pk))] + PointChunks(gs) + PointChunks(hs)
                        + [PointBytes(proof.cPi), PointBytes(proof.cD), PointBytes(proof.gD)]);
      var z := pp.expand(hz, n);
      && |z| == n
      && (var zp := Gather(z, pi);
          var cZ := Com(pp, zp, hint.rZ);
          var delta := pp.hash(ScalarChunks(pp.l, proof.x)
                               + [PointBytes(proof.cZ), PointBytes(proof.gU), PointBytes(proof.cU), DigestBytes(hz)]);
          && proof.cPi == pp.enc(hint.cPi) && proof.cD == pp.enc(hint.cD) && proof.gD == pp.enc(Msm(G_, hint.d, g))
          && proof.cZ == pp.enc(cZ) && proof.gU == pp.enc(Smul(G_, hint.u, B))
          && proof.cU == pp.enc(G_.add(Smul(G_, -hint.u, cZ), Smul(G_, hint.u2, B)))
          && |proof.x| == n && (forall i :: 0 <= i < n ==> proof.x[i] == s * z[pi[i]] + hint.d[i])
          && proof.v == s * delta + hint.u && proof.v2 == (s * hint.rZ + hint.rD) * delta + hint.u2
          && proof.psi == ProveKnown(pp, hint.known, Rho(z, delta), G_.add(cZ, Act(pp, delta, hint.cPi)), pi,
                                     hint.rZ + hint.rPi * delta))
  {
    hide IsPrime, IsGroup, Commit, Com, Act, ActMsm, Msm, Smul, ProveKnown, CrossTerms;
    ViewSize(pp, pk, hint, g, gs, hs, s, pi);
    var t := ProverView(pp, pk, hint, g, gs, hs, s, pi);
    var n := |pi|;
    ActMsmIsMsm(pp, hint.d, g);
    ActIsSmul(pp, hint.u, pp.base);
    ActIsSmul(pp, hint.u2, pp.base);
    var zp := Gather(t.z, pi);
    CommitIsCom(pp, zp, hint.rZ);
    ActIsSmul(pp, -hint.u, Com(pp, zp, hint.rZ));
  }

  // ---------- batched Diffie-Hellman ----------

  /** The proof: a commitment to the nonce and the response at the challenge. */
  lemma DdhProofIs<G(!new), C>(pp: Params<G, C>, pk: G, g: seq<G>, gs: seq<C>, hs: seq<C>, s: int, r: int)
    requires ValidParams(pp) && AllOrder(pp.g, pp.l, g)
    ensures var proof := DdhProve(pp, pk, g, gs, hs, s, r);
      var ha := pp.hash([PointBytes(pp.enc(pk))] + PointChunks(gs) + PointChunks(hs));
      var a := pp.expand(ha, |g|);
      && |a| == |g| && proof.c == pp.enc(Smul(pp.g, r, pp.g.add(pp.base, Msm(pp.g, a, g))))
      && proof.z == pp.hash([PointBytes(proof.c), DigestBytes(ha)]) * s + r
  {
    hide IsPrime, IsGroup, Act, ActMsm, Msm, Smul;
    var ha := DdhSeed(pp, pk, gs, hs);
    assert ExpandAt(pp, ha, |g|);
    NonceCommitment(pp, g, pp.expand(ha, |g|), r);
  }

  lemma NonceCommitment<G(!new), C>(pp: Params<G, C>, g: seq<G>, a: seq<int>, r: int)
    requires ValidParams(pp) && |a| == |g| && AllOrder(pp.g, pp.l, g)
    ensures pp.g.add(ActMsm(pp, ScaleVec(r, a), g), Act(pp, r, pp.base))
         == Smul(pp.g, r, pp.g.add(pp.base, Msm(pp.g, a, g)))
  {
    hide IsPrime, IsGroup, Act, ActMsm, Msm, Smul;
    var G_, A := pp.g, Msm(pp.g, a, g);
    ActMsmIsMsm(pp, ScaleVec(r, a), g);
    MsmScale(G_, r, a, g);
    ActIsSmul(pp, r, pp.base);
    Comm(G_, Smul(G_, r, A), Smul(G_, r, pp.base));
    SmulDist(G_, r, pp.base, A);
  }

  /** A proof written without the key: any response, and the commitment that fits it. */
  function Simulated<G, C>(pp: Params<G, C>, pk: G, g: seq<G>, h: seq<G>, a: seq<int>, delta: int, z: int): DdhProof<C>
    requires |a| == |g| == |h|
  {
    DdhProof(pp.enc(Minus(pp.g, Smul(pp.g, z, pp.g.add(pp.base, Msm(pp.g, a, g))),
                          Smul(pp.g, delta, pp.g.add(pk, Msm(pp.g, a, h))))), z)
  }

  /** Zero knowledge of the Diffie-Hellman proof. When the transcript hash answers delta, the
      proof with nonce r is the one written without the key for z = delta s + r, and as r runs
      through all numbers so does z: the nonce z - delta s gives the response z. */
  lemma DdhIsSimulated<G(!new), C(!new)>(pp: Params<G, C>, g: seq<G>, h: seq<G>, gs: seq<C>, hs: seq<C>, s: int,
                                         delta: int, z: int)
    requires ValidParams(pp) && |g| == |h| && AllOrder(pp.g, pp.l, g)
    requires forall i :: 0 <= i < |g| ==> h[i] == Smul(pp.g, s, g[i])
    requires forall chunks: seq<Chunk<C>> :: pp.hash(chunks) == delta
    ensures var a := pp.expand(delta, |g|); var pk := Smul(pp.g, s, pp.base);
      |a| == |g| && DdhProve(pp, pk, g, gs, hs, s, z - delta * s) == Simulated(pp, pk, g, h, a, delta, z)
  {
    hide IsPrime, IsGroup, Act, ActMsm, Msm, Smul;
    var G_, pk, r := pp.g, Smul(pp.g, s, pp.base), z - delta * s;
    DdhProofIs(pp, pk, g, gs, hs, s, r);
    assert ExpandAt(pp, delta, |g|);
    var chunks: seq<Chunk<C>> := [PointBytes(pp.enc(pk))] + PointChunks(gs) + PointChunks(hs);
    assert pp.hash(chunks) == delta;
    var a := pp.expand(delta, |g|);
    var X := G_.add(pp.base, Msm(G_, a, g));
    MsmOfMultiples(G_, a, g, h, s);
    MsmScale(G_, s, a, g);
    SmulDist(G_, s, pp.base, Msm(G_, a, g));
    SmulMul(G_, delta, s, X);
    SmulSub(G_, z, delta * s, X);
  }

  lemma SmulSub<G(!new)>(g: Group<G>, a: int, b: int, P: G)
    requires IsGroup(g)
    ensures Smul(g, a - b, P) == Minus(g, Smul(g, a, P), Smul(g, b, P))
  {
    hide IsGroup, Smul;
    SmulAdd(g, a, -b, P);
    SmulNeg(g, b, P);
  }
}
