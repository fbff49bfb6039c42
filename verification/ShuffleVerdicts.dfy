/** Soundness of the shuffle verifiers of src/aok.rs, from their verdicts: transcripts accepted
    under several transcript hashes and batching weights feed the extractor. */
module ShuffleVerdicts {
  import opened Arith
  import opened Groups
  import opened ShuffleArgument
  import opened KnownShuffle
  import opened AdaptedShuffle
  import opened BatchSoundness
  import opened Cofactor
  import opened ShuffleExtraction

  // ---------- residues do not matter ----------

  lemma ComCong<G(!new), C>(pp: Params<G, C>, u: seq<int>, r: int, v: seq<int>, s: int)
    requires ValidParams(pp) && |u| == |v| == |pp.f| && CongVec(pp.l, u, v) && Cong(pp.l, r, s)
    ensures Com(pp, u, r) == Com(pp, v, s)
  {
    hide IsPrime, Cong;
    MsmCong(pp.g, pp.l, u, v, pp.f);
    SmulCong(pp.g, pp.l, r, s, pp.base);
  }

  lemma SlopeOfLine(l: int, a: int, a': int, w: int, f: int, d: int)
    requires Cong(l, (a - a') * w, 1)
    ensures var s := w * ((a * f + d) + -1 * (a' * f + d)); Cong(l, s, f) && Cong(l, (a * f + d) + -a * s, d)
  {
    hide Cong;
    var s := w * ((a * f + d) + -1 * (a' * f + d));
    assert (a * f + d) + -1 * (a' * f + d) == (a - a') * f;
    assert w * ((a - a') * f) == ((a - a') * w) * f by { MulSwap(w, 1, a - a', f); }
    CongBy(l, s, f, (a - a') * w, 1, f);
    assert (a * f + d) + -a * s - d == -a * (s - f);
    CongBy(l, (a * f + d) + -a * s, d, s, f, -a);
  }

  /** Two weights on a pair of equations bring back both. */
  lemma Unbatched<G(!new), C>(pp: Params<G, C>, X: G, Y: G, f: seq<int>, fd: seq<int>, z: int, zd: int, a: int, a': int)
    requires ValidParams(pp) && |f| == |fd| == |pp.f| && CofactorAt(pp, X) && !Cong(pp.l, a, a')
    requires Opens(pp, pp.g.add(Smul(pp.g, a, X), Y), AddVec(ScaleVec(a, f), fd), a * z + zd)
    requires Opens(pp, pp.g.add(Smul(pp.g, a', X), Y), AddVec(ScaleVec(a', f), fd), a' * z + zd)
    ensures Opens(pp, X, f, z) && Opens(pp, Y, fd, zd)
  {
    hide IsPrime, Cong, IsGroup, Com, Smul, Clear, SlopeVec, Slope, RestVec, CongVec, AddVec, ScaleVec, ExpandAt,
      CodecAt, AllOrder;
    var l, u, u' := pp.l, AddVec(ScaleVec(a, f), fd), AddVec(ScaleVec(a', f), fd);
    var k, k' := a * z + zd, a' * z + zd;
    ExtractOpenings(pp, X, Y, a, u, k, a', u', k');
    LinesRestored(l, f, fd, a, a');
    NumberRestored(l, z, zd, a, a');
    var s, r := SlopeVec(l, a, u, a', u'), Slope(l, a, k, a', k');
    ComCong(pp, s, r, f, z);
    ComCong(pp, RestVec(a, u, s), k - a * r, fd, zd);
  }

  lemma LinesRestored(l: int, f: seq<int>, fd: seq<int>, a: int, a': int)
    requires IsPrime(l) && l > 2 && |f| == |fd| && !Cong(l, a, a')
    ensures var u, u' := AddVec(ScaleVec(a, f), fd), AddVec(ScaleVec(a', f), fd);
      var s := SlopeVec(l, a, u, a', u');
      CongVec(l, s, f) && CongVec(l, RestVec(a, u, s), fd)
  {
    hide IsPrime, Cong, ScalarInvert;
    DifferenceInverted(l, a, a');
    var u, u' := AddVec(ScaleVec(a, f), fd), AddVec(ScaleVec(a', f), fd);
    var s := SlopeVec(l, a, u, a', u');
    forall i | 0 <= i < |f| ensures Cong(l, s[i], f[i]) && Cong(l, RestVec(a, u, s)[i], fd[i]) {
      SlopeOfLine(l, a, a', ScalarInvert(l, a - a'), f[i], fd[i]);
    }
  }

  lemma NumberRestored(l: int, z: int, zd: int, a: int, a': int)
    requires IsPrime(l) && l > 2 && !Cong(l, a, a')
    ensures var k, k' := a * z + zd, a' * z + zd;
      var r := Slope(l, a, k, a', k');
      Cong(l, r, z) && Cong(l, k - a * r, zd)
  {
    hide IsPrime, Cong, ScalarInvert;
    DifferenceInverted(l, a, a');
    SlopeOfLine(l, a, a', ScalarInvert(l, a - a'), z, zd);
    var k, k' := a * z + zd, a' * z + zd;
    var r := Slope(l, a, k, a', k');
    assert r == ScalarInvert(l, a - a') * (k + -1 * k');
    assert k - a * r == k + -a * r;
  }

  // ---------- the known-content verifier ----------

  /** A proof and the transcript hash it was made under. */
  datatype Attempt<!C> = Attempt(hash: seq<Chunk<C>> -> int, proof: KnownProof<C>)

  function XOf<G, C>(pp: Params<G, C>, m: seq<int>, c: G, t: Attempt<C>): int
    requires pp.l > 0
  {
    KnownX(With(pp, t.hash), m, c)
  }

  function EOf<G, C>(pp: Params<G, C>, m: seq<int>, c: G, t: Attempt<C>): int
    requires pp.l > 0
  {
    KnownE(With(pp, t.hash), t.proof.cD, t.proof.cDelta, t.proof.cA, XOf(pp, m, c, t))
  }

  /** The verifier accepts under two different weights. */
  ghost predicate AcceptedTwice<G, C>(pp: Params<G, C>, m: seq<int>, c: G, t: Attempt<C>)
    requires pp.l > 2
  {
    exists a, a' :: !Cong(pp.l, a, a')
      && KnownVerdict(With(pp, t.hash), m, c, t.proof, a) == Accept
        && KnownVerdict(With(pp, t.hash), m, c, t.proof, a') == Accept
  }

  predicate Decodes<G, C>(pp: Params<G, C>, t: KnownProof<C>) {
    && pp.dec(t.cD).Some? && pp.dec(t.cDelta).Some? && pp.dec(t.cA).Some?
    && |t.f| >= |pp.f| && |t.fDelta| >= |pp.f|
  }

  function AnswerOf<G, C>(pp: Params<G, C>, e: int, t: KnownProof<C>): Answer
    requires Decodes(pp, t)
  {
    Answer(e, t.f[..|pp.f|], t.fDelta[..|pp.f|], t.z, t.zDelta)
  }

  function BranchWith<G, C>(pp: Params<G, C>, x: int, t: KnownProof<C>, answers: seq<Answer>): Branch<G>
    requires Decodes(pp, t)
  {
    Branch(x, pp.dec(t.cD).value, pp.dec(t.cDelta).value, pp.dec(t.cA).value, answers)
  }

  ghost predicate AllCofactor<G(!new), C>(pp: Params<G, C>) {
    forall P :: CofactorAt(pp, P)
  }

  /** One accepted batch opens the weighted sum of the two commitments. */
  lemma BatchOpens<G(!new), C>(pp: Params<G, C>, c: G, cD: G, cDelta: G, cA: G, proof: KnownProof<C>, e: int, a: int)
    requires ValidParams(pp) && AllCofactor(pp) && |ZippedResponses(proof.f, proof.fDelta, a)| == |pp.f|
    requires BatchedEquation(pp, c, cD, cDelta, cA, proof, e, a)
    ensures |proof.f| >= |pp.f| && |proof.fDelta| >= |pp.f|
    ensures var X, Y := pp.g.add(Smul(pp.g, e, c), cD), pp.g.add(Smul(pp.g, e, cA), cDelta);
      Opens(pp, pp.g.add(Smul(pp.g, a, X), Y),
            AddVec(ScaleVec(a, proof.f[..|pp.f|]), proof.fDelta[..|pp.f|]), a * proof.z + proof.zDelta)
  {
    hide IsPrime, Cong, IsGroup, Com, Commit, Act, Smul, Clear;
    var g, n := pp.g, |pp.f|;
    var u := AddVec(ScaleVec(a, proof.f[..n]), proof.fDelta[..n]);
    assert ZippedResponses(proof.f, proof.fDelta, a) == u;
    CommitIsCom(pp, u, a * proof.z + proof.zDelta);
    var W := g.add(Act(pp, e, c), cD);
    assert CofactorAt(pp, c) && CofactorAt(pp, cA) && CofactorAt(pp, W);
    SameCleared(pp, e, c, cD);
    SameCleared(pp, e, cA, cDelta);
    var X, Y := g.add(Smul(g, e, c), cD), g.add(Smul(g, e, cA), cDelta);
    Assoc(g, Act(pp, a, W), Act(pp, e, cA), cDelta);
    ClearAdd(g, Act(pp, a, W), g.add(Act(pp, e, cA), cDelta));
    ClearAct(pp, a, W);
    ClearSmul(g, a, X);
    ClearAdd(g, Smul(g, a, X), Y);
  }

  lemma SameCleared<G(!new), C>(pp: Params<G, C>, e: int, P: G, Q: G)
    requires ValidParams(pp) && CofactorAt(pp, P)
    ensures Clear(pp.g, pp.g.add(Act(pp, e, P), Q)) == Clear(pp.g, pp.g.add(Smul(pp.g, e, P), Q))
  {
    hide IsPrime, Cong, IsGroup, Act, Smul, Clear;
    ClearAct(pp, e, P);
    ClearSmul(pp.g, e, P);
    ClearAdd(pp.g, Act(pp, e, P), Q);
    ClearAdd(pp.g, Smul(pp.g, e, P), Q);
  }

  /** An attempt accepted twice is a correct answer. */
  lemma AcceptedIsCorrect<G(!new), C>(pp: Params<G, C>, m: seq<int>, c: G, t: Attempt<C>, answers: seq<Answer>)
    requires ValidParams(pp) && AllCofactor(pp) && 0 < |m| <= |pp.f| && AcceptedTwice(pp, m, c, t)
    ensures Decodes(pp, t.proof)
    ensures Correct(pp, m, c, BranchWith(pp, XOf(pp, m, c, t), t.proof, answers),
      AnswerOf(pp, EOf(pp, m, c, t), t.proof))
  {
    hide IsPrime, Cong, IsGroup, Com, Commit, Act, Smul, Clear, FinalCheck, BatchedEquation, Opens, KnownX, KnownE,
      CofactorAt;
    var a, a' :| !Cong(pp.l, a, a') && KnownVerdict(With(pp, t.hash), m, c, t.proof, a) == Accept
      && KnownVerdict(With(pp, t.hash), m, c, t.proof, a') == Accept;
    var (x, e) := (XOf(pp, m, c, t), EOf(pp, m, c, t));
    var cD, cDelta, cA := pp.dec(t.proof.cD).value, pp.dec(t.proof.cDelta).value, pp.dec(t.proof.cA).value;
    HashFree(pp, t.hash, c, cD, cDelta, cA, t.proof, e, a);
    HashFree(pp, t.hash, c, cD, cDelta, cA, t.proof, e, a');
    BatchOpens(pp, c, cD, cDelta, cA, t.proof, e, a);
    BatchOpens(pp, c, cD, cDelta, cA, t.proof, e, a');
    var n := |pp.f|;
    var f, fd := t.proof.f[..n], t.proof.fDelta[..n];
    var X := pp.g.add(Smul(pp.g, e, c), cD);
    assert CofactorAt(pp, X);
    Unbatched(pp, X, pp.g.add(Smul(pp.g, e, cA), cDelta), f, fd, t.proof.z, t.proof.zDelta, a, a');
    CutCheck(pp.l, m, t.proof.f, t.proof.fDelta, n, e, x);
  }

  lemma HashFree<G(!new), C>(pp: Params<G, C>, hash: seq<Chunk<C>> -> int, c: G, cD: G, cDelta: G, cA: G,
                             proof: KnownProof<C>, e: int, a: int)
    requires pp.l > 0 && |ZippedResponses(proof.f, proof.fDelta, a)| == |pp.f|
    ensures BatchedEquation(With(pp, hash), c, cD, cDelta, cA, proof, e, a)
      == BatchedEquation(pp, c, cD, cDelta, cA, proof, e, a)
  {
    hide Smul, Msm, Canonical;
  }

  lemma CutCheck(l: int, m: seq<int>, f: seq<int>, fd: seq<int>, n: nat, e: int, x: int)
    requires l > 2 && 0 < |m| <= n <= |f| && n <= |fd| && FinalCheck(l, m, f, fd, e, x)
    ensures FinalCheck(l, m, f[..n], fd[..n], e, x)
  {
    hide Cong, FinalCheck;
    forall j | 0 <= j < |m| ensures Cong(l, f[..n][j], f[j]) && Cong(l, fd[..n][j], fd[j]) {
      CongRefl(l, f[j]);
      CongRefl(l, fd[j]);
    }
    FinalCheckCong(l, m, f[..n], fd[..n], f, fd, e, x);
  }

  /** Attempts that share everything up to the second challenge, and more than n of those. */
  ghost predicate Forked<G, C>(pp: Params<G, C>, m: seq<int>, c: G, ts: seq<Attempt<C>>)
    requires pp.l > 2
  {
    && |ts| > |m| && (forall i :: 0 <= i < |ts| ==> AcceptedTwice(pp, m, c, ts[i]))
    && (forall i :: 0 <= i < |ts| ==>
      && XOf(pp, m, c, ts[i]) == XOf(pp, m, c, ts[0])
      && ts[i].proof.cD == ts[0].proof.cD && ts[i].proof.cDelta == ts[0].proof.cDelta
        && ts[i].proof.cA == ts[0].proof.cA)
    && (forall i, j :: 0 <= i < j < |ts| ==> !Cong(pp.l, EOf(pp, m, c, ts[j]), EOf(pp, m, c, ts[i])))
    && (forall i :: 0 <= i < |ts| ==> !Cong(pp.l, EOf(pp, m, c, ts[i]), 0))
  }

  ghost predicate AllDecode<G, C>(pp: Params<G, C>, ts: seq<Attempt<C>>) {
    ts != [] && forall i :: 0 <= i < |ts| ==> Decodes(pp, ts[i].proof)
  }

  ghost function BranchOf<G, C>(pp: Params<G, C>, m: seq<int>, c: G, ts: seq<Attempt<C>>): Branch<G>
    requires pp.l > 0 && AllDecode(pp, ts)
  {
    BranchWith(pp, XOf(pp, m, c, ts[0]), ts[0].proof,
               seq(|ts|, i requires 0 <= i < |ts| => AnswerOf(pp, EOf(pp, m, c, ts[i]), ts[i].proof)))
  }

  lemma ForkedIsCorrect<G(!new), C>(pp: Params<G, C>, m: seq<int>, c: G, ts: seq<Attempt<C>>)
    requires ValidParams(pp) && AllCofactor(pp) && 0 < |m| <= |pp.f| && Forked(pp, m, c, ts)
    ensures AllDecode(pp, ts) && CorrectBranch(pp, m, c, BranchOf(pp, m, c, ts))
  {
    hide IsPrime, Cong, IsGroup, Smul, FinalCheck, Opens, AcceptedTwice, XOf, EOf, Correct, CofactorAt, CodecAt,
      ExpandAt, AllOrder;
    forall i | 0 <= i < |ts| ensures Decodes(pp, ts[i].proof) {
      AcceptedIsCorrect(pp, m, c, ts[i], []);
    }
    var b := BranchOf(pp, m, c, ts);
    forall k | 0 <= k < |b.answers| ensures Correct(pp, m, c, b, b.answers[k]) {
      AcceptedIsCorrect(pp, m, c, ts[k], b.answers);
    }
    assert CofactorAt(pp, c) && CofactorAt(pp, b.cA);
  }

  ghost predicate ForkedTree<G, C>(pp: Params<G, C>, m: seq<int>, c: G, tree: seq<seq<Attempt<C>>>)
    requires pp.l > 2
  {
    && |tree| >= |m| && (forall k :: 0 <= k < |tree| ==> Forked(pp, m, c, tree[k]))
    && (forall i, j :: 0 <= i < j < |tree| ==> !Cong(pp.l, XOf(pp, m, c, tree[j][0]), XOf(pp, m, c, tree[i][0])))
  }

  ghost predicate TreeDecodes<G, C>(pp: Params<G, C>, tree: seq<seq<Attempt<C>>>) {
    forall k :: 0 <= k < |tree| ==> AllDecode(pp, tree[k])
  }

  ghost function Branches<G, C>(pp: Params<G, C>, m: seq<int>, c: G, tree: seq<seq<Attempt<C>>>): seq<Branch<G>>
    requires pp.l > 0 && TreeDecodes(pp, tree)
  {
    seq(|tree|, k requires 0 <= k < |tree| => BranchOf(pp, m, c, tree[k]))
  }

  /** Soundness of the known-content verifier: proofs that it accepts under n first challenges,
      each with n + 1 second challenges and each under two weights, give an opening of c to a
      rearrangement of m or two openings of one commitment. */
  lemma KnownSoundness<G(!new), C>(pp: Params<G, C>, m: seq<int>, c: G, tree: seq<seq<Attempt<C>>>)
    requires ValidParams(pp) && AllCofactor(pp) && 0 < |m| <= |pp.f| && ForkedTree(pp, m, c, tree)
    ensures TreeDecodes(pp, tree) && TreeSizes(|pp.f|, Branches(pp, m, c, tree))
    ensures Extracted(pp, m, c, Extract(pp.l, |pp.f|, Branches(pp, m, c, tree), 0))
  {
    hide IsPrime, Cong, IsGroup, Smul, Forked, XOf, CorrectBranch, AllDecode, Extract, Extracted, CofactorAt, CodecAt,
      ExpandAt, AllOrder, TreeSizes;
    forall k | 0 <= k < |tree| ensures AllDecode(pp, tree[k]) && CorrectBranch(pp, m, c, BranchOf(pp, m, c, tree[k])) {
      ForkedIsCorrect(pp, m, c, tree[k]);
    }
    ExtractionIsSound(pp, m, c, Branches(pp, m, c, tree));
  }

  // ---------- the adapted verifier ----------

  lemma BatchVectorCut(a1: int, a2: int, delta: int, f: seq<int>, fd: seq<int>, x: seq<int>, n: nat)
    requires |BatchVector(a1, a2, delta, f, fd, x)| == n
    ensures n <= |f| && n <= |fd| && n <= |x|
    ensures BatchVector(a1, a2, delta, f, fd, x) == BatchVector(a1, a2, delta, f[..n], fd[..n], x[..n])
  {
  }

  /** What one accepting verdict says. */
  lemma AdaptedAccepts<G(!new), C>(pp: Params<G, C>, pk: G, g: seq<G>, h: seq<G>, gs: seq<C>, hs: seq<C>,
                                   proof: AdaptedProof<C>, a1: int, a2: int)
    requires ValidParams(pp) && VerifyAdapted(pp, pk, g, h, gs, hs, proof, a1, a2) == Accept
    ensures Derive(pp, pk, |g|, gs, hs, proof).Some?
    ensures var t, psi := Derive(pp, pk, |g|, gs, hs, proof).value, proof.psi; var n := |pp.f|;
      && |t.zRho| == |g| && n <= |psi.f| && n <= |psi.fDelta| && n <= |proof.x| && 0 < |psi.f| && |g| <= |psi.f|
        && |g| - 1 <= |psi.fDelta|
      && FinalCheck(pp.l, t.zRho, psi.f, psi.fDelta, t.e, t.x)
      && BatchHolds(pp, Com1(pp, t), Com2(pp, t), Com3(pp, t, proof.v, proof.v2), t.delta,
                    psi.f[..n], psi.fDelta[..n], proof.x[..n], psi.z, psi.zDelta, a1, a2)
  {
    hide IsPrime, IsGroup, FinalCheck, Act, ActMsm, Commit, BatchVector, BatchLeft, Com1, Com2, Com3,
      ChallengeZ, ChallengeDelta, KnownX, KnownE, Smul;
    var hz := ChallengeZ(pp, pk, gs, hs, proof.cPi, proof.cD, proof.gD);
    assert ExpandAt(pp, hz, |g|);
    var t := Derive(pp, pk, |g|, gs, hs, proof).value;
    BatchVectorCut(a1, a2, t.delta, proof.psi.f, proof.psi.fDelta, proof.x, |pp.f|);
  }

  /** A shuffle proof accepted under three pairs of weights contains a correct answer of the
      known-content argument for z_i + delta i, and its third equation holds. */
  lemma AdaptedIsCorrect<G(!new), C>(pp: Params<G, C>, pk: G, g: seq<G>, h: seq<G>, gs: seq<C>, hs: seq<C>,
                                     proof: AdaptedProof<C>, a1: int, a2: int, b1: int, b2: int, answers: seq<Answer>)
    requires ValidParams(pp) && AllCofactor(pp) && 0 < |g| <= |pp.f|
    requires VerifyAdapted(pp, pk, g, h, gs, hs, proof, a1, a2) == Accept
      && VerifyAdapted(pp, pk, g, h, gs, hs, proof, b1, a2) == Accept
    requires VerifyAdapted(pp, pk, g, h, gs, hs, proof, a1, b2) == Accept && !Cong(pp.l, a1, b1) && !Cong(pp.l, a2, b2)
    ensures var d, n := Derive(pp, pk, |g|, gs, hs, proof), |pp.f|;
      && d.Some? && n <= |proof.psi.f| && n <= |proof.psi.fDelta| && n <= |proof.x| && |d.value.zRho| == |g|
      && Correct(pp, d.value.zRho, d.value.cRho, Branch(d.value.x, d.value.kcD, d.value.kcDelta, d.value.kcA, answers),
                 Answer(d.value.e, proof.psi.f[..n], proof.psi.fDelta[..n], proof.psi.z, proof.psi.zDelta))
      && Opens(pp, Com3(pp, d.value, proof.v, proof.v2), ScaleVec(d.value.delta, proof.x[..n]), 0)
  {
    hide IsPrime, IsGroup, Cong, FinalCheck, Act, Commit, BatchHolds, Com1, Com2, Com3, Derive, Opens, CofactorAt, Smul,
      CodecAt, ExpandAt, AllOrder;
    AdaptedAccepts(pp, pk, g, h, gs, hs, proof, a1, a2);
    AdaptedAccepts(pp, pk, g, h, gs, hs, proof, b1, a2);
    AdaptedAccepts(pp, pk, g, h, gs, hs, proof, a1, b2);
    hide VerifyAdapted;
    var t, n := Derive(pp, pk, |g|, gs, hs, proof).value, |pp.f|;
    var c1, c2, c3 := Com1(pp, t), Com2(pp, t), Com3(pp, t, proof.v, proof.v2);
    var f, fd, psi := proof.psi.f[..n], proof.psi.fDelta[..n], proof.psi;
    assert CofactorAt(pp, c1) && CofactorAt(pp, c2) && CofactorAt(pp, t.cRho) && CofactorAt(pp, t.kcA);
    BatchSoundCleared(pp, c1, c2, c3, t.delta, f, fd, proof.x[..n], psi.z, psi.zDelta, a1, a2, b1, b2);
    ActedOpens(pp, t.e, t.cRho, t.kcD, f, psi.z);
    ActedOpens(pp, t.e, t.kcA, t.kcDelta, fd, psi.zDelta);
    UnfoldComs(pp, t);
    CutCheck(pp.l, t.zRho, psi.f, psi.fDelta, n, t.e, t.x);
  }

  lemma ActedOpens<G(!new), C>(pp: Params<G, C>, e: int, P: G, Q: G, u: seq<int>, r: int)
    requires ValidParams(pp) && |u| == |pp.f| && CofactorAt(pp, P)
    ensures Opens(pp, pp.g.add(Act(pp, e, P), Q), u, r) <==> Opens(pp, pp.g.add(Smul(pp.g, e, P), Q), u, r)
  {
    hide IsPrime, Cong, IsGroup, Act, Smul, Clear, Com;
    SameCleared(pp, e, P, Q);
  }
}
