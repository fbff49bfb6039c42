/** The shuffle and batched Diffie-Hellman arguments (src/aok.rs).
    Scalars are residues modulo the prime l; points live in an abelian group. Blake2s and
    ChaCha are arbitrary functions of the transcript, random draws are arguments. */
module ShuffleArgument {
  import opened Wrappers
  import opened Arith
  import opened Fermat
  import opened Folds
  import opened Groups

  /** One 32-byte piece of a hashed transcript. */
  datatype Chunk<C> = PointBytes(point: C) | ScalarBytes(scalar: int) | DigestBytes(digest: int)

  /** The group with base point, order and commitment generators; point compression; the
      transcript hash and the seeded generator. A digest is its 32-byte integer. */
  datatype Params<!G, !C> = Params(
    g: Group<G>, l: int, base: G, f: seq<G>,
    enc: G -> C, dec: C -> Option<G>,
    hash: seq<Chunk<C>> -> int, expand: (int, nat) -> seq<int>)

  ghost predicate CodecAt<G, C>(pp: Params<G, C>, P: G) {
    pp.dec(pp.enc(P)) == Some(P)
  }

  ghost predicate ExpandAt<G, C>(pp: Params<G, C>, d: int, n: nat) {
    |pp.expand(d, n)| == n
  }

  /** The order of P divides 8 l. */
  ghost predicate CofactorAt<G, C>(pp: Params<G, C>, P: G) {
    Smul(pp.g, 8 * pp.l, P) == pp.g.zero
  }

  ghost predicate ValidParams<G(!new), C>(pp: Params<G, C>) {
    && IsGroup(pp.g) && IsPrime(pp.l) && pp.l > 2
    && Smul(pp.g, pp.l, pp.base) == pp.g.zero
    && AllOrder(pp.g, pp.l, pp.f)
    && (forall P :: CodecAt(pp, P))
    && (forall d: int, n: nat :: ExpandAt(pp, d, n))
  }

  /** The same parameters under another transcript hash. */
  function With<G, C>(pp: Params<G, C>, hash: seq<Chunk<C>> -> int): (r: Params<G, C>)
    ensures r.hash == hash
    ensures forall d: int, n: nat :: ExpandAt(r, d, n) <==> ExpandAt(pp, d, n)
  {
    pp.(hash := hash)
  }

  datatype Verdict = Accept | Reject | Panic

  // ---------- scalars acting on points ----------

  /** A point times a scalar: the canonical representative acts. */
  function Act<G, C>(pp: Params<G, C>, k: int, P: G): G
    requires pp.l > 0
  {
    Smul(pp.g, Canonical(pp.l, k), P)
  }

  function CanonVec(l: int, a: seq<int>): (r: seq<int>)
    requires l > 0
    ensures |r| == |a| && forall i :: 0 <= i < |a| ==> r[i] == Canonical(l, a[i])
  {
    seq(|a|, i requires 0 <= i < |a| => Canonical(l, a[i]))
  }

  function ActMsm<G, C>(pp: Params<G, C>, ks: seq<int>, Ps: seq<G>): G
    requires pp.l > 0 && |ks| == |Ps|
  {
    Msm(pp.g, CanonVec(pp.l, ks), Ps)
  }

  lemma ActIsSmul<G(!new), C>(pp: Params<G, C>, k: int, P: G)
    requires ValidParams(pp) && Smul(pp.g, pp.l, P) == pp.g.zero
    ensures Act(pp, k, P) == Smul(pp.g, k, P)
  {
    hide IsPrime, Cong;
    CanonicalCong(pp.l, k);
    SmulCong(pp.g, pp.l, Canonical(pp.l, k), k, P);
  }

  lemma ActMsmIsMsm<G(!new), C>(pp: Params<G, C>, ks: seq<int>, Ps: seq<G>)
    requires ValidParams(pp) && |ks| == |Ps| && AllOrder(pp.g, pp.l, Ps)
    ensures ActMsm(pp, ks, Ps) == Msm(pp.g, ks, Ps)
  {
    hide IsPrime, Cong;
    forall i | 0 <= i < |ks|
      ensures Cong(pp.l, CanonVec(pp.l, ks)[i], ks[i])
    {
      CanonicalCong(pp.l, ks[i]);
    }
    MsmCong(pp.g, pp.l, CanonVec(pp.l, ks), ks, Ps);
  }

  // ---------- Pedersen commitments ----------

  /** The commitment before reduction: sum of m_i f_i plus r times the base. */
  function Com<G, C>(pp: Params<G, C>, m: seq<int>, r: int): G
    requires |m| == |pp.f|
  {
    pp.g.add(Msm(pp.g, m, pp.f), Smul(pp.g, r, pp.base))
  }

  function Commit<G, C>(pp: Params<G, C>, m: seq<int>, r: int): G
    requires pp.l > 0 && |m| == |pp.f|
  {
    pp.g.add(ActMsm(pp, m, pp.f), Act(pp, r, pp.base))
  }

  lemma CommitIsCom<G(!new), C>(pp: Params<G, C>, m: seq<int>, r: int)
    requires ValidParams(pp) && |m| == |pp.f|
    ensures Commit(pp, m, r) == Com(pp, m, r)
    ensures Smul(pp.g, pp.l, Com(pp, m, r)) == pp.g.zero
  {
    hide IsPrime, Cong;
    ActMsmIsMsm(pp, m, pp.f);
    ActIsSmul(pp, r, pp.base);
    MsmOrder(pp.g, pp.l, m, pp.f);
    SmulOrder(pp.g, pp.l, r, pp.base);
    SmulDist(pp.g, pp.l, Msm(pp.g, m, pp.f), Smul(pp.g, r, pp.base));
    Unit(pp.g, pp.g.zero);
  }

  lemma ComAdd<G(!new), C>(pp: Params<G, C>, m: seq<int>, r: int, m': seq<int>, r': int)
    requires IsGroup(pp.g) && |m| == |m'| == |pp.f|
    ensures pp.g.add(Com(pp, m, r), Com(pp, m', r')) == Com(pp, AddVec(m, m'), r + r')
  {
    MsmAdd(pp.g, m, m', pp.f);
    SmulAdd(pp.g, r, r', pp.base);
    Interchange(pp.g, Msm(pp.g, m, pp.f), Smul(pp.g, r, pp.base), Msm(pp.g, m', pp.f), Smul(pp.g, r', pp.base));
  }

  lemma ComScale<G(!new), C>(pp: Params<G, C>, k: int, m: seq<int>, r: int)
    requires ValidParams(pp) && |m| == |pp.f|
    ensures Act(pp, k, Com(pp, m, r)) == Com(pp, ScaleVec(k, m), k * r)
    ensures Smul(pp.g, k, Com(pp, m, r)) == Com(pp, ScaleVec(k, m), k * r)
  {
    hide IsPrime, Cong;
    CommitIsCom(pp, m, r);
    ActIsSmul(pp, k, Com(pp, m, r));
    MsmScale(pp.g, k, m, pp.f);
    SmulMul(pp.g, k, r, pp.base);
    SmulDist(pp.g, k, Msm(pp.g, m, pp.f), Smul(pp.g, r, pp.base));
  }

  function ZeroVec(n: nat): (r: seq<int>)
    ensures |r| == n && forall i :: 0 <= i < n ==> r[i] == 0
  {
    seq(n, i => 0)
  }

  /** A multiple of the base point is a commitment to zeros. */
  lemma BaseIsCom<G(!new), C>(pp: Params<G, C>, r: int)
    requires IsGroup(pp.g)
    ensures Smul(pp.g, r, pp.base) == Com(pp, ZeroVec(|pp.f|), r)
  {
    MsmScale(pp.g, 0, ZeroVec(|pp.f|), pp.f);
    assert ScaleVec(0, ZeroVec(|pp.f|)) == ZeroVec(|pp.f|);
    Unit(pp.g, Smul(pp.g, r, pp.base));
  }

  // ---------- known-content shuffle ----------

  datatype KnownHint<G> = KnownHint(d: seq<int>, delta: seq<int>, rD: int, rDelta: int, rA: int, cD: G, cDelta: G)

  datatype KnownProof<C> = KnownProof(cD: C, cDelta: C, cA: C, f: seq<int>, fDelta: seq<int>, z: int, zDelta: int)

  /** delta_0 = d_0 and delta_(n-1) = 0, the last assignment winning when n = 1. */
  function MakeDelta(d: seq<int>, draws: seq<int>): (r: seq<int>)
    requires |draws| == |d|
    ensures |r| == |d|
  {
    seq(|d|, i requires 0 <= i < |d| => if i == |d| - 1 then 0 else if i == 0 then d[0] else draws[i])
  }

  function DeltaProducts(d: seq<int>, delta: seq<int>): (r: seq<int>)
    requires |d| == |delta|
    ensures |r| == |d|
  {
    seq(|d|, i requires 0 <= i < |d| => if i == |d| - 1 then 0 else -delta[i] * d[i + 1])
  }

  function PrepareKnown<G, C>(pp: Params<G, C>, d: seq<int>, draws: seq<int>, rD: int, rDelta: int,
                              rA: int): KnownHint<G>
    requires pp.l > 0 && |d| == |draws| == |pp.f|
  {
    var delta := MakeDelta(d, draws);
    KnownHint(d, delta, rD, rDelta, rA, Commit(pp, d, rD), Commit(pp, DeltaProducts(d, delta), rDelta))
  }

  /** The prefix products a_i of m_(pi j) - x. */
  function PrefixProduct(m: seq<int>, pi: seq<nat>, x: int, i: nat): int
    requires i < |pi| && forall j :: 0 <= j < |pi| ==> pi[j] < |m|
  {
    if i == 0 then m[pi[0]] - x else PrefixProduct(m, pi, x, i - 1) * (m[pi[i]] - x)
  }

  function CrossTerm(h: KnownHint, m: seq<int>, pi: seq<nat>, x: int, i: nat): int
    requires i + 1 < |pi| == |h.d| == |h.delta| && forall j :: 0 <= j < |pi| ==> pi[j] < |m|
  {
    h.delta[i + 1] - (m[pi[i + 1]] - x) * h.delta[i] - PrefixProduct(m, pi, x, i) * h.d[i + 1]
  }

  function CrossTerms(h: KnownHint, m: seq<int>, pi: seq<nat>, x: int): (r: seq<int>)
    requires |pi| == |h.d| == |h.delta| && forall j :: 0 <= j < |pi| ==> pi[j] < |m|
    ensures |r| == |pi|
    ensures forall i :: 0 <= i < |pi| ==> r[i] == if i == |pi| - 1 then 0 else CrossTerm(h, m, pi, x, i)
  {
    seq(|pi|, i requires 0 <= i < |pi| => if i == |pi| - 1 then 0 else CrossTerm(h, m, pi, x, i))
  }

  function ScalarChunks<C>(l: int, s: seq<int>): seq<Chunk<C>>
    requires l > 0
  {
    seq(|s|, i requires 0 <= i < |s| => ScalarBytes(Canonical(l, s[i])))
  }

  function PointChunks<C>(s: seq<C>): seq<Chunk<C>> {
    seq(|s|, i requires 0 <= i < |s| => PointBytes(s[i]))
  }

  function KnownX<G, C>(pp: Params<G, C>, m: seq<int>, c: G): int
    requires pp.l > 0
  {
    pp.hash([PointBytes(pp.enc(c))] + ScalarChunks(pp.l, m))
  }

  function KnownE<G, C>(pp: Params<G, C>, cD: C, cDelta: C, cA: C, hx: int): int {
    pp.hash([PointBytes(cD), PointBytes(cDelta), PointBytes(cA), DigestBytes(hx)])
  }

  function ProveKnown<G, C>(pp: Params<G, C>, h: KnownHint<G>, m: seq<int>, c: G, pi: seq<nat>, r: int): KnownProof<C>
    requires pp.l > 0 && |m| == |pi| == |h.d| == |h.delta| == |pp.f|
    requires forall j :: 0 <= j < |pi| ==> pi[j] < |m|
  {
    var x := KnownX(pp, m, c);
    var a2 := CrossTerms(h, m, pi, x);
    var cA := Commit(pp, a2, h.rA);
    var e := KnownE(pp, pp.enc(h.cD), pp.enc(h.cDelta), pp.enc(cA), x);
    KnownProof(
      pp.enc(h.cD), pp.enc(h.cDelta), pp.enc(cA),
      AddVec(ScaleVec(e, Gather(m, pi)), h.d),
      AddVec(ScaleVec(e, a2), DeltaProducts(h.d, h.delta)),
      e * r + h.rD,
      e * h.rA + h.rDelta)
  }

  /** Inversion of a scalar as the power l - 2; zero gives zero. */
  function ScalarInvert(l: int, e: int): int
    requires l > 2
  {
    Pow(e, l - 2)
  }

  /** F_i of the verifier: F_0 = f_0 - e x, F_i = (F_(i-1) (f_i - e x) + fDelta_(i-1)) / e. */
  function FoldF(l: int, f: seq<int>, fDelta: seq<int>, e: int, x: int, i: nat): int
    requires l > 2 && i < |f| && i <= |fDelta|
  {
    if i == 0 then f[0] - e * x
    else (FoldF(l, f, fDelta, e, x, i - 1) * (f[i] - e * x) + fDelta[i - 1]) * ScalarInvert(l, e)
  }

  function Shifted(m: seq<int>, x: int): (r: seq<int>)
    ensures |r| == |m| && forall i :: 0 <= i < |m| ==> r[i] == m[i] - x
  {
    seq(|m|, i requires 0 <= i < |m| => m[i] - x)
  }

  predicate FinalCheck(l: int, m: seq<int>, f: seq<int>, fDelta: seq<int>, e: int, x: int)
    requires l > 2 && 0 < |f| && |m| <= |f| && |m| - 1 <= |fDelta|
  {
    Eq(l, FoldF(l, f, fDelta, e, x, if |m| == 0 then 0 else |m| - 1), e * Product(Shifted(m, x)))
  }

  lemma FStep(e: int, a: int, d0: int, t: int, d1: int, dn: int)
    ensures (e * a + d0) * ((e * t + d1)) + (e * (dn - t * d0 - a * d1) + -d0 * d1) == e * (e * (a * t) + dn)
  {
    var x, y := e * a, e * t;
    assert (x + d0) * (y + d1) == x * y + x * d1 + d0 * y + d0 * d1;
    assert x * y == e * (e * (a * t)) by { MulSwap(e, a, e, t); MulSwap(e, e, a * t, 1); }
    assert e * (dn - t * d0 - a * d1) == e * dn - e * (t * d0) - e * (a * d1);
    assert e * (t * d0) == d0 * y by { MulSwap(e, t, d0, 1); }
    assert e * (a * d1) == x * d1 by { MulSwap(e, a, d1, 1); }
  }

  lemma OffsetVanishes(l: int, a: int, d: int)
    ensures Cong(l, a + d, a) <==> Cong(l, d, 0)
  {
    if Cong(l, d, 0) { CongBy(l, a + d, a, d, 0, 1); }
    if Cong(l, a + d, a) { CongBy(l, d, 0, a + d, a, 1); }
  }

  lemma BothVanish(l: int, F: int, e: int, q: int)
    requires Cong(l, F, 0) && Cong(l, e, 0)
    ensures Cong(l, F, e * q)
  {
    CongBy2(l, F, e * q, F, 0, 1, e, 0, -q);
  }

  lemma ZeroTimes(l: int, a: int, w: int)
    requires Cong(l, w, 0)
    ensures Cong(l, a * w, 0)
  {
    CongBy(l, a * w, 0, w, 0, a);
  }

  lemma MaskedEntry(e: int, m: int, d: int, x: int)
    ensures e * m + d - e * x == e * (m - x) + d
  {
  }

  lemma FoldFNext(l: int, f: seq<int>, fDelta: seq<int>, e: int, x: int, i: nat)
    requires l > 2 && 0 < i < |f| && i <= |fDelta|
    ensures FoldF(l, f, fDelta, e, x, i)
         == (FoldF(l, f, fDelta, e, x, i - 1) * (f[i] - e * x) + fDelta[i - 1]) * ScalarInvert(l, e)
  {
  }

  /** The loop invariant: F_i = e a_i + delta_i, and F_i = 0 from the first division on
      when the challenge is zero. */
  lemma {:induction false} FInvariant<G>(l: int, h: KnownHint<G>, m: seq<int>, pi: seq<nat>, x: int, e: int, i: nat)
    requires IsPrime(l) && l > 2 && i < |pi| == |m| == |h.d| == |h.delta|
    requires forall j :: 0 <= j < |pi| ==> pi[j] < |m|
    requires h.delta[0] == h.d[0]
    ensures var f := AddVec(ScaleVec(e, Gather(m, pi)), h.d);
      var fDelta := AddVec(ScaleVec(e, CrossTerms(h, m, pi, x)), DeltaProducts(h.d, h.delta));
      && (!Cong(l, e, 0) ==> Cong(l, FoldF(l, f, fDelta, e, x, i), e * PrefixProduct(m, pi, x, i) + h.delta[i]))
      && (Cong(l, e, 0) && i > 0 ==> Cong(l, FoldF(l, f, fDelta, e, x, i), 0))
  {
    if i == 0 {
      hide IsPrime, Cong, CrossTerm;
      var f := AddVec(ScaleVec(e, Gather(m, pi)), h.d);
      assert f[0] == e * m[pi[0]] + h.d[0];
      MaskedEntry(e, m[pi[0]], h.d[0], x);
      CongRefl(l, f[0] - e * x);
    } else {
      FInvariant(l, h, m, pi, x, e, i - 1);
      FInvariantNext(l, h, m, pi, x, e, i);
    }
  }

  lemma FInvariantNext<G>(l: int, h: KnownHint<G>, m: seq<int>, pi: seq<nat>, x: int, e: int, i: nat)
    requires IsPrime(l) && l > 2 && 0 < i < |pi| == |m| == |h.d| == |h.delta|
    requires forall j :: 0 <= j < |pi| ==> pi[j] < |m|
    requires var f := AddVec(ScaleVec(e, Gather(m, pi)), h.d);
      var fDelta := AddVec(ScaleVec(e, CrossTerms(h, m, pi, x)), DeltaProducts(h.d, h.delta));
      !Cong(l, e, 0) ==> Cong(l, FoldF(l, f, fDelta, e, x, i - 1), e * PrefixProduct(m, pi, x, i - 1) + h.delta[i - 1])
    ensures var f := AddVec(ScaleVec(e, Gather(m, pi)), h.d);
      var fDelta := AddVec(ScaleVec(e, CrossTerms(h, m, pi, x)), DeltaProducts(h.d, h.delta));
      && (!Cong(l, e, 0) ==> Cong(l, FoldF(l, f, fDelta, e, x, i), e * PrefixProduct(m, pi, x, i) + h.delta[i]))
      && (Cong(l, e, 0) ==> Cong(l, FoldF(l, f, fDelta, e, x, i), 0))
  {
    hide IsPrime, Cong, CrossTerm, FoldF, PrefixProduct, DeltaProducts, CrossTerms;
    var f := AddVec(ScaleVec(e, Gather(m, pi)), h.d);
    var fDelta := AddVec(ScaleVec(e, CrossTerms(h, m, pi, x)), DeltaProducts(h.d, h.delta));
    assert f[i] == e * m[pi[i]] + h.d[i];
    MaskedEntry(e, m[pi[i]], h.d[i], x);
    FermatInverse(l, e);
    FoldFNext(l, f, fDelta, e, x, i);
    var F0, w, t := FoldF(l, f, fDelta, e, x, i - 1), ScalarInvert(l, e), m[pi[i]] - x;
    var a0, a1 := PrefixProduct(m, pi, x, i - 1), PrefixProduct(m, pi, x, i);
    var k := fDelta[i - 1];
    hide ScalarInvert, AddVec, ScaleVec, Gather;
    if !Cong(l, e, 0) { FInvariantStep<G>(h, m, pi, x, e, i, k); }
    FInvariantScalars(l, e, w, F0, e * a0 + h.delta[i - 1], e * t + h.d[i], k, e * a1 + h.delta[i]);
  }

  lemma FInvariantScalars(l: int, e: int, w: int, F0: int, G0: int, s: int, k: int, target: int)
    requires Cong(l, e, 0) ==> Cong(l, w, 0)
    requires !Cong(l, e, 0) ==> Cong(l, e * w, 1) && Cong(l, F0, G0) && G0 * s + k == e * target
    ensures Cong(l, e, 0) ==> Cong(l, (F0 * s + k) * w, 0)
    ensures !Cong(l, e, 0) ==> Cong(l, (F0 * s + k) * w, target)
  {
    hide Cong;
    if Cong(l, e, 0) {
      ZeroTimes(l, F0 * s + k, w);
    } else {
      FDivide(l, e, w, F0, G0, s, k, target);
    }
  }

  lemma FInvariantStep<G>(h: KnownHint<G>, m: seq<int>, pi: seq<nat>, x: int, e: int, i: nat, k: int)
    requires 0 < i < |pi| == |m| == |h.d| == |h.delta|
    requires forall j :: 0 <= j < |pi| ==> pi[j] < |m|
    requires k == AddVec(ScaleVec(e, CrossTerms(h, m, pi, x)), DeltaProducts(h.d, h.delta))[i - 1]
    ensures var a0, a1, t := PrefixProduct(m, pi, x, i - 1), PrefixProduct(m, pi, x, i), m[pi[i]] - x;
      (e * a0 + h.delta[i - 1]) * (e * t + h.d[i]) + k == e * (e * a1 + h.delta[i])
  {
    var a0, t := PrefixProduct(m, pi, x, i - 1), m[pi[i]] - x;
    FStep(e, a0, h.delta[i - 1], t, h.d[i], h.delta[i]);
    assert k == e * CrossTerm(h, m, pi, x, i - 1) + -h.delta[i - 1] * h.d[i];
  }

  lemma FDivide(l: int, e: int, w: int, F0: int, G0: int, s: int, k: int, target: int)
    requires Cong(l, e * w, 1) && Cong(l, F0, G0) && G0 * s + k == e * target
    ensures Cong(l, (F0 * s + k) * w, target)
  {
    hide Cong;
    assert (F0 * s + k) * w - target == (s * w) * (F0 - G0) + target * (e * w - 1) by {
      assert (F0 * s + k) == s * (F0 - G0) + e * target;
      assert (s * (F0 - G0)) * w == (s * w) * (F0 - G0) by { MulSwap(s, F0 - G0, w, 1); }
      assert (e * target) * w == target * (e * w) by { MulSwap(e, target, w, 1); }
    }
    CongBy2(l, (F0 * s + k) * w, target, F0, G0, s * w, e * w, 1, target);
  }

  lemma {:induction false} PrefixIsProduct(m: seq<int>, pi: seq<nat>, x: int, i: nat)
    requires i < |pi| && forall j :: 0 <= j < |pi| ==> pi[j] < |m|
    ensures PrefixProduct(m, pi, x, i) == Product(Gather(Shifted(m, x), pi)[..i + 1])
  {
    MulIntIsMonoid();
    var s := Gather(Shifted(m, x), pi);
    if i == 0 {
      assert s[..1] == [s[0]] + [];
      ProductCons(s[0], []);
    } else {
      PrefixIsProduct(m, pi, x, i - 1);
      FoldRemove(MulInt, 1, s[..i + 1], i);
      assert s[..i + 1][..i] + s[..i + 1][i + 1..] == s[..i];
    }
  }

  lemma FullPrefixProduct(m: seq<int>, pi: seq<nat>, x: int)
    requires IsPermutation(pi) && |pi| == |m| > 0
    ensures PrefixProduct(m, pi, x, |m| - 1) == Product(Shifted(m, x))
  {
    hide Product;
    PrefixIsProduct(m, pi, x, |m| - 1);
    var s := Gather(Shifted(m, x), pi);
    assert s[..|m|] == s;
    ProductPermuted(Shifted(m, x), pi);
  }

  /** The honest prover passes the final product check for every challenge when there are
      at least two entries; with a single entry it passes exactly when d_0 is zero. */
  lemma FinalCheckCompleteness<G>(l: int, h: KnownHint<G>, m: seq<int>, pi: seq<nat>, draws: seq<int>, x: int, e: int)
    requires IsPrime(l) && l > 2 && 0 < |pi| == |m| == |h.d| == |draws|
    requires IsPermutation(pi) && h.delta == MakeDelta(h.d, draws)
    ensures var f := AddVec(ScaleVec(e, Gather(m, pi)), h.d);
      var fDelta := AddVec(ScaleVec(e, CrossTerms(h, m, pi, x)), DeltaProducts(h.d, h.delta));
      FinalCheck(l, m, f, fDelta, e, x) <==> |m| >= 2 || Cong(l, h.d[0], 0)
  {
    hide IsPrime, Cong, Product, Gather, CrossTerm, Eq, ScalarInvert;
    var f := AddVec(ScaleVec(e, Gather(m, pi)), h.d);
    var fDelta := AddVec(ScaleVec(e, CrossTerms(h, m, pi, x)), DeltaProducts(h.d, h.delta));
    var n := |m|;
    FullPrefixProduct(m, pi, x);
    var q := Product(Shifted(m, x));
    if n >= 2 {
      assert h.delta[n - 1] == 0 && h.delta[0] == h.d[0];
      hide FoldF, AddVec, ScaleVec, CrossTerms, DeltaProducts, MakeDelta, PrefixProduct, Shifted, IsPermutation;
      FInvariant(l, h, m, pi, x, e, n - 1);
      if Cong(l, e, 0) {
        BothVanish(l, FoldF(l, f, fDelta, e, x, n - 1), e, q);
      }
    } else {
      assert f[0] == e * m[pi[0]] + h.d[0];
      MaskedEntry(e, m[pi[0]], h.d[0], x);
      assert FoldF(l, f, fDelta, e, x, 0) == e * q + h.d[0];
      OffsetVanishes(l, e * q, h.d[0]);
    }
  }

  /** e c + cD and e cA + cDelta are the commitments to the honest responses. */
  lemma KnownCommitments<G(!new), C>(pp: Params<G, C>, h: KnownHint<G>, mp: seq<int>, a2: seq<int>, r: int, e: int)
    requires ValidParams(pp) && |mp| == |a2| == |h.d| == |h.delta| == |pp.f|
    requires h.cD == Commit(pp, h.d, h.rD) && h.cDelta == Commit(pp, DeltaProducts(h.d, h.delta), h.rDelta)
    ensures pp.g.add(Act(pp, e, Com(pp, mp, r)), h.cD) == Com(pp, AddVec(ScaleVec(e, mp), h.d), e * r + h.rD)
    ensures pp.g.add(Act(pp, e, Com(pp, a2, h.rA)), h.cDelta)
         == Com(pp, AddVec(ScaleVec(e, a2), DeltaProducts(h.d, h.delta)), e * h.rA + h.rDelta)
  {
    hide IsPrime, Cong, Act, Com, Commit;
    var d2 := DeltaProducts(h.d, h.delta);
    CommitIsCom(pp, h.d, h.rD);
    CommitIsCom(pp, d2, h.rDelta);
    ComScale(pp, e, mp, r);
    ComScale(pp, e, a2, h.rA);
    ComAdd(pp, ScaleVec(e, mp), e * r, h.d, h.rD);
    ComAdd(pp, ScaleVec(e, a2), e * h.rA, d2, h.rDelta);
  }
}
