/** The known-content shuffle argument as it runs: the prover's and the verifier's loops, and
    the verdict on an honest proof (src/aok.rs). */
module KnownShuffle {
  import opened Arith
  import opened Fermat
  import opened Folds
  import opened Groups
  import opened ShuffleArgument

  // ---------- the prover's loops ----------

  /** acc runs through the products a_i. */
  method PrefixProducts(m: seq<int>, pi: seq<nat>, x: int) returns (a: seq<int>)
    requires forall j :: 0 <= j < |pi| ==> pi[j] < |m|
    ensures |a| == |pi| && forall i :: 0 <= i < |pi| ==> a[i] == PrefixProduct(m, pi, x, i)
  {
    a := [];
    var acc := 1;
    for i := 0 to |pi|
      invariant |a| == i && forall j :: 0 <= j < i ==> a[j] == PrefixProduct(m, pi, x, j)
      invariant acc == if i == 0 then 1 else PrefixProduct(m, pi, x, i - 1)
    {
      acc := acc * (m[pi[i]] - x);
      a := a + [acc];
    }
  }

  /** The vector behind c_a; its last entry stays zero. */
  method CrossTermLoop(h: KnownHint, m: seq<int>, pi: seq<nat>, x: int) returns (a2: seq<int>)
    requires 0 < |pi| == |h.d| == |h.delta| && forall j :: 0 <= j < |pi| ==> pi[j] < |m|
    ensures a2 == CrossTerms(h, m, pi, x)
  {
    var n := |pi|;
    var a := PrefixProducts(m, pi, x);
    var v := new int[n](_ => 0);
    for i := 0 to n - 1
      invariant forall j :: 0 <= j < n ==> v[j] == if j < i then CrossTerm(h, m, pi, x, j) else 0
    {
      v[i] := h.delta[i + 1] - (m[pi[i + 1]] - x) * h.delta[i] - a[i] * h.d[i + 1];
    }
    a2 := v[..];
  }

  /** prove_shuffle_known. */
  method KnownProver<G, C>(pp: Params<G, C>, h: KnownHint<G>, m: seq<int>, c: G, pi: seq<nat>, r: int)
    returns (proof: KnownProof<C>)
    requires pp.l > 0 && 0 < |m| == |pi| == |h.d| == |h.delta| == |pp.f|
    requires forall j :: 0 <= j < |pi| ==> pi[j] < |m|
    ensures proof == ProveKnown(pp, h, m, c, pi, r)
  {
    hide CrossTerm, Commit, KnownX, KnownE;
    var n, x := |m|, KnownX(pp, m, c);
    var a2 := CrossTermLoop(h, m, pi, x);
    var cA := Commit(pp, a2, h.rA);
    var e := KnownE(pp, pp.enc(h.cD), pp.enc(h.cDelta), pp.enc(cA), x);
    var f := seq(n, i requires 0 <= i < n => e * m[pi[i]] + h.d[i]);
    var v := new int[n](_ => 0);
    for i := 0 to n - 1
      invariant forall j :: 0 <= j < n ==> v[j] == if j < i then e * a2[j] - h.delta[j] * h.d[j + 1] else 0
    {
      v[i] := e * a2[i] - h.delta[i] * h.d[i + 1];
    }
    ResponseVectors(h, m, pi, a2, e, f, v[..]);
    proof := KnownProof(pp.enc(h.cD), pp.enc(h.cDelta), pp.enc(cA), f, v[..], e * r + h.rD, e * h.rA + h.rDelta);
  }

  lemma ResponseVectors<G>(h: KnownHint<G>, m: seq<int>, pi: seq<nat>, a2: seq<int>, e: int, f: seq<int>, v: seq<int>)
    requires 0 < |m| == |pi| == |h.d| == |h.delta| == |a2| == |f| == |v|
    requires forall j :: 0 <= j < |pi| ==> pi[j] < |m|
    requires a2[|m| - 1] == 0
    requires forall i :: 0 <= i < |m| ==> f[i] == e * m[pi[i]] + h.d[i]
    requires forall i :: 0 <= i < |m| ==> v[i] == if i < |m| - 1 then e * a2[i] - h.delta[i] * h.d[i + 1] else 0
    ensures f == AddVec(ScaleVec(e, Gather(m, pi)), h.d)
    ensures v == AddVec(ScaleVec(e, a2), DeltaProducts(h.d, h.delta))
  {
    var w, dp := AddVec(ScaleVec(e, a2), DeltaProducts(h.d, h.delta)), DeltaProducts(h.d, h.delta);
    forall i | 0 <= i < |m| ensures v[i] == w[i] {
      assert w[i] == e * a2[i] + dp[i];
      if i < |m| - 1 { Signs(h.delta[i], h.d[i + 1]); }
    }
  }

  lemma Signs(a: int, b: int)
    ensures -a * b == -(a * b)
  {
  }

  // ---------- the verifier ----------

  /** The recursion F_i = (F_(i-1) (f_i - e x) + fDelta_(i-1)) / e. */
  method FoldLoop(l: int, n: nat, f: seq<int>, fDelta: seq<int>, e: int, x: int) returns (F: int)
    requires l > 2 && 0 < |f| && n <= |f| && n - 1 <= |fDelta|
    ensures F == FoldF(l, f, fDelta, e, x, if n == 0 then 0 else n - 1)
  {
    hide ScalarInvert;
    F := f[0] - e * x;
    var eInv, last := ScalarInvert(l, e), if n == 0 then 1 else n;
    for i := 1 to last
      invariant F == FoldF(l, f, fDelta, e, x, i - 1)
    {
      FoldFNext(l, f, fDelta, e, x, i);
      var exp := f[i] - e * x;
      var tmp := F * exp + fDelta[i - 1];
      F := tmp * eInv;
    }
  }

  lemma ProductFront(s: seq<int>, i: nat, prod: int)
    requires i < |s|
    ensures prod * Product(s[i..]) == (prod * s[i]) * Product(s[i + 1..])
  {
    assert s[i..][1..] == s[i + 1..];
    MulSwap(prod, s[i], Product(s[i + 1..]), 1);
  }

  method ProductLoop(m: seq<int>, x: int) returns (prod: int)
    ensures prod == Product(Shifted(m, x))
  {
    ghost var s := Shifted(m, x);
    prod := 1;
    assert s[0..] == s && Product(s[|m|..]) == 1;
    hide Product, Shifted;
    for i := 0 to |m|
      invariant prod * Product(s[i..]) == Product(s)
    {
      ProductFront(s, i, prod);
      prod := prod * (m[i] - x);
    }
  }

  method FinalFold(l: int, m: seq<int>, f: seq<int>, fDelta: seq<int>, e: int, x: int) returns (ok: bool)
    requires l > 2 && 0 < |f| && |m| <= |f| && |m| - 1 <= |fDelta|
    ensures ok <==> FinalCheck(l, m, f, fDelta, e, x)
  {
    hide FoldF, Product, Shifted, Eq;
    var F := FoldLoop(l, |m|, f, fDelta, e, x);
    var prod := ProductLoop(m, x);
    ok := Eq(l, F, e * prod);
  }

  /** The zip of the two response vectors, weighted; it stops at the shorter one. */
  function ZippedResponses(f: seq<int>, fDelta: seq<int>, alpha: int): (r: seq<int>)
    ensures |r| == (if |f| <= |fDelta| then |f| else |fDelta|)
    ensures forall i :: 0 <= i < |r| ==> r[i] == alpha * f[i] + fDelta[i]
  {
    var n := if |f| <= |fDelta| then |f| else |fDelta|;
    seq(n, i requires 0 <= i < n => alpha * f[i] + fDelta[i])
  }

  /** The two commitment equations batched by alpha. */
  predicate BatchedEquation<G(==), C>(pp: Params<G, C>, c: G, cD: G, cDelta: G, cA: G, proof: KnownProof<C>, e: int,
                                      alpha: int)
    requires pp.l > 0 && |ZippedResponses(proof.f, proof.fDelta, alpha)| == |pp.f|
  {
    pp.g.add(pp.g.add(Act(pp, alpha, pp.g.add(Act(pp, e, c), cD)), Act(pp, e, cA)), cDelta)
      == Commit(pp, ZippedResponses(proof.f, proof.fDelta, alpha), alpha * proof.z + proof.zDelta)
  }

  /** verify_shuffle_known with batching weight alpha; Panic where an index, an unwrap or the
      length assertion of the commitment fails. */
  function KnownVerdict<G(==), C>(pp: Params<G, C>, m: seq<int>, c: G, proof: KnownProof<C>, alpha: int): Verdict
    requires pp.l > 2
  {
    var x := KnownX(pp, m, c);
    var e := KnownE(pp, proof.cD, proof.cDelta, proof.cA, x);
    var cD, cDelta, cA := pp.dec(proof.cD), pp.dec(proof.cDelta), pp.dec(proof.cA);
    if cD.None? || cDelta.None? || cA.None? then Panic
    else if |ZippedResponses(proof.f, proof.fDelta, alpha)| != |pp.f| then Panic
    else if !BatchedEquation(pp, c, cD.value, cDelta.value, cA.value, proof, e, alpha) then Reject
    else if |proof.f| == 0 || |m| > |proof.f| || |m| - 1 > |proof.fDelta| then Panic
    else if FinalCheck(pp.l, m, proof.f, proof.fDelta, e, x) then Accept else Reject
  }

  method VerifyKnown<G(==), C>(pp: Params<G, C>, m: seq<int>, c: G, proof: KnownProof<C>, alpha: int)
    returns (v: Verdict)
    requires pp.l > 2
    ensures v == KnownVerdict(pp, m, c, proof, alpha)
  {
    hide BatchedEquation, KnownX, KnownE, FinalCheck;
    var x := KnownX(pp, m, c);
    var e := KnownE(pp, proof.cD, proof.cDelta, proof.cA, x);
    var cD, cDelta, cA := pp.dec(proof.cD), pp.dec(proof.cDelta), pp.dec(proof.cA);
    if cD.None? || cDelta.None? || cA.None? { return Panic; }
    if |ZippedResponses(proof.f, proof.fDelta, alpha)| != |pp.f| { return Panic; }
    if !BatchedEquation(pp, c, cD.value, cDelta.value, cA.value, proof, e, alpha) { return Reject; }
    if |proof.f| == 0 || |m| > |proof.f| || |m| - 1 > |proof.fDelta| { return Panic; }
    var ok := FinalFold(pp.l, m, proof.f, proof.fDelta, e, x);
    v := if ok then Accept else Reject;
  }

  /** The batched equation of an honest proof holds for every weight. */
  lemma HonestBatch<G(!new), C>(pp: Params<G, C>, c: G, cD: G, cDelta: G, cA: G, proof: KnownProof<C>, e: int,
                                alpha: int)
    requires ValidParams(pp) && |proof.f| == |proof.fDelta| == |pp.f|
    requires pp.g.add(Act(pp, e, c), cD) == Com(pp, proof.f, proof.z)
    requires pp.g.add(Act(pp, e, cA), cDelta) == Com(pp, proof.fDelta, proof.zDelta)
    ensures BatchedEquation(pp, c, cD, cDelta, cA, proof, e, alpha)
  {
    hide Com, Act, Commit, IsPrime, Cong, IsGroup;
    assert ZippedResponses(proof.f, proof.fDelta, alpha) == AddVec(ScaleVec(alpha, proof.f), proof.fDelta);
    ComScale(pp, alpha, proof.f, proof.z);
    var X := Com(pp, ScaleVec(alpha, proof.f), alpha * proof.z);
    Assoc(pp.g, X, Act(pp, e, cA), cDelta);
    ComAdd(pp, ScaleVec(alpha, proof.f), alpha * proof.z, proof.fDelta, proof.zDelta);
    CommitIsCom(pp, AddVec(ScaleVec(alpha, proof.f), proof.fDelta), alpha * proof.z + proof.zDelta);
  }

  /** An honest proof is accepted, for every weight and every challenge, exactly when there
      are at least two elements or the single blinder d_0 vanishes; otherwise it is rejected. */
  lemma KnownCompleteness<G(!new), C>(pp: Params<G, C>, h: KnownHint<G>, m: seq<int>, pi: seq<nat>, draws: seq<int>,
                                      r: int, alpha: int)
    requires ValidParams(pp) && 0 < |m| == |pi| == |h.d| == |draws| == |pp.f| && IsPermutation(pi)
    requires h == PrepareKnown(pp, h.d, draws, h.rD, h.rDelta, h.rA)
    ensures var c := Commit(pp, Gather(m, pi), r);
      KnownVerdict(pp, m, c, ProveKnown(pp, h, m, c, pi, r), alpha)
        == if |m| >= 2 || Cong(pp.l, h.d[0], 0) then Accept else Reject
  {
    hide Com, Act, Commit, IsPrime, Cong, IsGroup, KnownX, KnownE, BatchedEquation, FinalCheck, CrossTerm,
      AddVec, ScaleVec, DeltaProducts, MakeDelta;
    var c := Commit(pp, Gather(m, pi), r);
    var proof := ProveKnown(pp, h, m, c, pi, r);
    var x := KnownX(pp, m, c);
    var a2 := CrossTerms(h, m, pi, x);
    var cA := Commit(pp, a2, h.rA);
    var e := KnownE(pp, proof.cD, proof.cDelta, proof.cA, x);
    assert CodecAt(pp, h.cD) && CodecAt(pp, h.cDelta) && CodecAt(pp, cA);
    CommitIsCom(pp, Gather(m, pi), r);
    CommitIsCom(pp, a2, h.rA);
    KnownCommitments(pp, h, Gather(m, pi), a2, r, e);
    HonestBatch(pp, c, h.cD, h.cDelta, cA, proof, e, alpha);
    FinalCheckCompleteness(pp.l, h, m, pi, draws, x, e);
  }

  /** The two challenges written out. */
  lemma KnownChallengesMean<G, C>(pp: Params<G, C>, m: seq<int>, c: G, cD: C, cDelta: C, cA: C, x: int)
    requires pp.l > 0
    ensures KnownX(pp, m, c)
         == pp.hash([PointBytes(pp.enc(c))] + seq(|m|, i requires 0 <= i < |m| => ScalarBytes(Canonical(pp.l, m[i]))))
    ensures KnownE(pp, cD, cDelta, cA, x)
         == pp.hash([PointBytes(cD), PointBytes(cDelta), PointBytes(cA), DigestBytes(x)])
  {
    hide Canonical;
    assert ScalarChunks<C>(pp.l, m) == seq(|m|, i requires 0 <= i < |m| => ScalarBytes(Canonical(pp.l, m[i])));
  }

  /** The verdicts written out: the verifier accepts exactly when every point decodes, the zipped
      responses fit the generators, alpha (e c + cD) + e cA + cDelta is the commitment to
      alpha f + fDelta, and the recursion ends at e prod(m_i - x); it rejects where one of the two
      equations fails first and panics otherwise. */
  lemma KnownVerdictMeans<G(!new), C>(pp: Params<G, C>, m: seq<int>, c: G, proof: KnownProof<C>, alpha: int)
    requires ValidParams(pp)
    ensures var x := KnownX(pp, m, c);
      var e := KnownE(pp, proof.cD, proof.cDelta, proof.cA, x);
      var cD, cDelta, cA := pp.dec(proof.cD), pp.dec(proof.cDelta), pp.dec(proof.cA);
      var n := if |proof.f| <= |proof.fDelta| then |proof.f| else |proof.fDelta|;
      var ready := cD.Some? && cDelta.Some? && cA.Some? && n == |pp.f|;
      var batch := ready &&
        pp.g.add(pp.g.add(Act(pp, alpha, pp.g.add(Act(pp, e, c), cD.value)), Act(pp, e, cA.value)), cDelta.value)
        == Commit(pp, seq(n, i requires 0 <= i < n => alpha * proof.f[i] + proof.fDelta[i]),
                  alpha * proof.z + proof.zDelta);
      var sized := 0 < |proof.f| && |m| <= |proof.f| && |m| - 1 <= |proof.fDelta|;
      var final := sized && Cong(pp.l, FoldF(pp.l, proof.f, proof.fDelta, e, x, if |m| == 0 then 0 else |m| - 1),
                                 e * Product(Shifted(m, x)));
      var verdict := KnownVerdict(pp, m, c, proof, alpha);
      && (verdict == Accept <==> batch && final)
      && (verdict == Reject <==> (ready && !batch) || (batch && sized && !final))
  {
    hide IsPrime, IsGroup, Cong, Act, Commit, FoldF, Product, Shifted, KnownX, KnownE, ZippedResponses, CodecAt,
      ExpandAt, AllOrder;
    ZippedMeans(proof.f, proof.fDelta, alpha);
  }

  lemma ZippedMeans(f: seq<int>, fDelta: seq<int>, alpha: int)
    ensures var n := if |f| <= |fDelta| then |f| else |fDelta|;
      ZippedResponses(f, fDelta, alpha) == seq(n, i requires 0 <= i < n => alpha * f[i] + fDelta[i])
  {
  }
}
