/** What the hashed transcripts of src/aok.rs and src/twosided.rs bind: under a hash without
    collisions, equal challenges come from equal statements, commitments and earlier digests. */
module Transcripts {
  import opened Arith
  import opened ShuffleArgument
  import opened AdaptedShuffle
  import opened BatchSoundness
  import opened TwoSided

  ghost predicate CollisionAt<G, C>(pp: Params<G, C>, s: seq<Chunk<C>>, t: seq<Chunk<C>>) {
    pp.hash(s) == pp.hash(t) && s != t
  }

  ghost predicate CollisionFree<G, C(!new)>(pp: Params<G, C>) {
    forall s, t :: !CollisionAt(pp, s, t)
  }

  lemma ChunksInjective<C>(gs: seq<C>, hs: seq<C>)
    requires PointChunks(gs) == PointChunks(hs)
    ensures gs == hs
  {
    var a, b := PointChunks(gs), PointChunks(hs);
    assert |gs| == |a| == |b| == |hs|;
    forall i | 0 <= i < |gs| ensures gs[i] == hs[i] {
      assert a[i] == PointBytes(gs[i]) && b[i] == PointBytes(hs[i]);
    }
  }

  lemma ScalarsInjective<C>(l: int, x: seq<int>, y: seq<int>)
    requires l > 0 && ScalarChunks<C>(l, x) == ScalarChunks<C>(l, y)
    ensures CanonVec(l, x) == CanonVec(l, y)
  {
    hide Canonical;
    var a, b := ScalarChunks<C>(l, x), ScalarChunks<C>(l, y);
    assert |x| == |a| == |b| == |y|;
    forall i | 0 <= i < |x| ensures Canonical(l, x[i]) == Canonical(l, y[i]) {
      assert a[i] == ScalarBytes(Canonical(l, x[i])) && b[i] == ScalarBytes(Canonical(l, y[i]));
    }
  }

  /** Equal concatenations with equally long heads have equal parts. */
  lemma SplitAt<T>(a: seq<T>, b: seq<T>, c: seq<T>, d: seq<T>)
    requires a + b == c + d && |a| == |c|
    ensures a == c && b == d
  {
    assert a == (a + b)[..|a|] && c == (c + d)[..|c|];
    assert b == (a + b)[|a|..] && d == (c + d)[|c|..];
  }

  /** Round 1 commits to the key and the points of round 2. */
  lemma SigmaBinds<G, C(!new)>(pp: Params<G, C>, pk: G, points: seq<C>, pk': G, points': seq<C>)
    requires CollisionFree(pp) && Sigma(pp, pk, points) == Sigma(pp, pk', points')
    ensures pp.enc(pk) == pp.enc(pk') && points == points'
  {
    var h, h' := [PointBytes(pp.enc(pk))], [PointBytes(pp.enc(pk'))];
    assert !CollisionAt(pp, h + PointChunks(points), h' + PointChunks(points'));
    SplitAt(h, PointChunks(points), h', PointChunks(points'));
    assert h[0] == h'[0];
    ChunksInjective(points, points');
  }

  /** The first challenge binds the commitment and the known vector. */
  lemma KnownXBinds<G, C(!new)>(pp: Params<G, C>, m: seq<int>, c: G, m': seq<int>, c': G)
    requires pp.l > 0 && CollisionFree(pp) && KnownX(pp, m, c) == KnownX(pp, m', c')
    ensures pp.enc(c) == pp.enc(c') && CanonVec(pp.l, m) == CanonVec(pp.l, m')
  {
    var h, h' := [PointBytes(pp.enc(c))], [PointBytes(pp.enc(c'))];
    var s, s' := ScalarChunks<C>(pp.l, m), ScalarChunks<C>(pp.l, m');
    assert !CollisionAt(pp, h + s, h' + s');
    SplitAt(h, s, h', s');
    assert h[0] == h'[0];
    ScalarsInjective<C>(pp.l, m, m');
  }

  /** The second challenge binds the three commitments and the first. */
  lemma KnownEBinds<G, C(!new)>(pp: Params<G, C>, cD: C, cDelta: C, cA: C, x: int, cD': C, cDelta': C, cA': C, x': int)
    requires CollisionFree(pp) && KnownE(pp, cD, cDelta, cA, x) == KnownE(pp, cD', cDelta', cA', x')
    ensures cD == cD' && cDelta == cDelta' && cA == cA' && x == x'
  {
    var s := [PointBytes(cD), PointBytes(cDelta), PointBytes(cA), DigestBytes(x)];
    var t := [PointBytes(cD'), PointBytes(cDelta'), PointBytes(cA'), DigestBytes(x')];
    assert !CollisionAt(pp, s, t);
    assert s[0] == t[0] && s[1] == t[1] && s[2] == t[2] && s[3] == t[3];
  }

  /** The seed of z binds the key, both lists of points and the first commitments. */
  lemma ChallengeZBinds<G, C(!new)>(pp: Params<G, C>, pk: G, gs: seq<C>, hs: seq<C>, cPi: C, cD: C, gD: C,
                                    pk': G, gs': seq<C>, hs': seq<C>, cPi': C, cD': C, gD': C)
    requires CollisionFree(pp) && |gs| == |gs'|
    requires ChallengeZ(pp, pk, gs, hs, cPi, cD, gD) == ChallengeZ(pp, pk', gs', hs', cPi', cD', gD')
    ensures pp.enc(pk) == pp.enc(pk') && gs == gs' && hs == hs' && cPi == cPi' && cD == cD' && gD == gD'
  {
    var k, k' := [PointBytes(pp.enc(pk))], [PointBytes(pp.enc(pk'))];
    var e := [PointBytes(cPi), PointBytes(cD), PointBytes(gD)];
    var e' := [PointBytes(cPi'), PointBytes(cD'), PointBytes(gD')];
    var G_, G', H, H' := PointChunks(gs), PointChunks(gs'), PointChunks(hs), PointChunks(hs');
    assert !CollisionAt(pp, k + G_ + H + e, k' + G' + H' + e');
    assert |k + G_ + H + e| == |k' + G' + H' + e'| && |H| == |H'|;
    SplitAt(k + G_ + H, e, k' + G' + H', e');
    SplitAt(k + G_, H, k' + G', H');
    SplitAt(k, G_, k', G');
    assert k[0] == k'[0] && e[0] == e'[0] && e[1] == e'[1] && e[2] == e'[2];
    ChunksInjective(gs, gs');
    ChunksInjective(hs, hs');
  }

  /** delta binds the response x, the next commitments and the seed of z. */
  lemma ChallengeDeltaBinds<G, C(!new)>(pp: Params<G, C>, x: seq<int>, cZ: C, gU: C, cU: C, hz: int,
                                        x': seq<int>, cZ': C, gU': C, cU': C, hz': int)
    requires pp.l > 0 && CollisionFree(pp)
    requires ChallengeDelta(pp, x, cZ, gU, cU, hz) == ChallengeDelta(pp, x', cZ', gU', cU', hz')
    ensures CanonVec(pp.l, x) == CanonVec(pp.l, x') && cZ == cZ' && gU == gU' && cU == cU' && hz == hz'
  {
    var s, s' := ScalarChunks<C>(pp.l, x), ScalarChunks<C>(pp.l, x');
    var e := [PointBytes(cZ), PointBytes(gU), PointBytes(cU), DigestBytes(hz)];
    var e' := [PointBytes(cZ'), PointBytes(gU'), PointBytes(cU'), DigestBytes(hz')];
    assert !CollisionAt(pp, s + e, s' + e');
    assert |s + e| == |s' + e'| && |s| == |s'|;
    SplitAt(s, e, s', e');
    assert e[0] == e'[0] && e[1] == e'[1] && e[2] == e'[2] && e[3] == e'[3];
    ScalarsInjective<C>(pp.l, x, x');
  }

  /** The weights of the Diffie-Hellman argument bind its statement. */
  lemma DdhSeedBinds<G, C(!new)>(pp: Params<G, C>, pk: G, gs: seq<C>, hs: seq<C>, pk': G, gs': seq<C>, hs': seq<C>)
    requires CollisionFree(pp) && |gs| == |gs'| && DdhSeed(pp, pk, gs, hs) == DdhSeed(pp, pk', gs', hs')
    ensures pp.enc(pk) == pp.enc(pk') && gs == gs' && hs == hs'
  {
    var k, k' := [PointBytes(pp.enc(pk))], [PointBytes(pp.enc(pk'))];
    var G_, G', H, H' := PointChunks(gs), PointChunks(gs'), PointChunks(hs), PointChunks(hs');
    assert !CollisionAt(pp, k + G_ + H, k' + G' + H');
    SplitAt(k + G_, H, k' + G', H');
    SplitAt(k, G_, k', G');
    assert k[0] == k'[0];
    ChunksInjective(gs, gs');
    ChunksInjective(hs, hs');
  }

  /** Its challenge binds the commitment and the weights' seed. */
  lemma DdhDeltaBinds<G, C(!new)>(pp: Params<G, C>, c: C, ha: int, c': C, ha': int)
    requires CollisionFree(pp) && DdhDelta(pp, c, ha) == DdhDelta(pp, c', ha')
    ensures c == c' && ha == ha'
  {
    var s, t := [PointBytes(c), DigestBytes(ha)], [PointBytes(c'), DigestBytes(ha')];
    assert !CollisionAt(pp, s, t);
    assert s[0] == t[0] && s[1] == t[1];
  }
}
