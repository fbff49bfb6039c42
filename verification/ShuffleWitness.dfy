/** Soundness of the adapted shuffle argument (src/aok.rs): transcripts of several rounds give
    the secret key and permutation, or two openings of one commitment. */
module ShuffleWitness {
  import opened Arith
  import opened Folds
  import opened Groups
  import opened ShuffleArgument
  import opened AdaptedShuffle
  import opened ShuffleSoundness
  import opened BatchSoundness
  import opened Cofactor
  import opened ShuffleExtraction
  import opened ShuffleVerdicts
  import opened ShuffleLines
  import opened ShuffleRelation

  // ---------- transcripts ----------

  /** What follows the challenge delta: the commitment to the rearranged z_i + delta i, the two
      responses v and v2, and transcripts of the known-content argument. */
  datatype Fork<G> = Fork(delta: int, c: G, v: int, v2: int, bs: seq<Branch<G>>)

  /** What follows the challenge vector z. */
  datatype Round<G> = Round(z: seq<int>, x: seq<int>, cZ: G, gU: G, cU: G, forks: seq<Fork<G>>)

  /** The checks of the verifier up to points of order dividing 8. */
  ghost predicate ForkOk<G, C>(pp: Params<G, C>, pk: G, cPi: G, cD: G, b: Round<G>, k: Fork<G>)
    requires pp.l > 2 && 0 < |pp.f| == |b.z| == |b.x|
  {
    var g := pp.g;
    && CorrectTree(pp, Rho(b.z, k.delta), k.c, k.bs)
    && Clear(g, k.c) == Clear(g, g.add(Smul(g, k.delta, cPi), b.cZ))
    && Clear(g, Smul(g, k.v, pp.base)) == Clear(g, g.add(b.gU, Smul(g, k.delta, pk)))
    && Opens(pp, g.add(Smul(g, k.v, b.cZ), g.add(Smul(g, k.delta, cD), b.cU)), ScaleVec(k.delta, b.x), k.v2)
  }

  ghost predicate RoundOk<G, C>(pp: Params<G, C>, pk: G, g: seq<G>, h: seq<G>, cPi: G, cD: G, gD: G, b: Round<G>)
    requires pp.l > 2 && 0 < |pp.f| == |g| == |h|
  {
    && |b.z| == |b.x| == |pp.f| && |b.forks| > 2 * |pp.f| * |pp.f|
    && (forall i, j :: 0 <= i < j < |b.forks| ==> !Cong(pp.l, b.forks[j].delta, b.forks[i].delta))
    && (forall j :: 0 <= j < |b.forks| ==> ForkOk(pp, pk, cPi, cD, b, b.forks[j]))
    && Clear(pp.g, gD) == Msm(pp.g, b.x + NegVec(b.z), ClearAll(pp.g, g) + ClearAll(pp.g, h))
  }

  // ---------- secrets of a round ----------

  function OpeningOf(n: nat, x: Extraction): (r: (seq<int>, int))
    ensures |r.0| == n
  {
    if x.Opening? && |x.a| == n then (x.a, x.r) else (ZeroVec(n), 0)
  }

  predicate ForkSizes<G>(n: nat, k: Fork<G>) {
    k.bs != [] && forall i :: 0 <= i < |k.bs| ==> Sizes(n, k.bs[i].answers)
  }

  function ForkOpening<G>(l: int, n: nat, k: Fork<G>): (r: (seq<int>, int))
    requires l > 2 && ForkSizes(n, k)
    ensures |r.0| == n
  {
    OpeningOf(n, Extract(l, n, k.bs, 0))
  }

  /** Openings p of cPi, zeta of cZ and d of cD, and the key s. */
  datatype RoundSecrets = RoundSecrets(p: seq<int>, rp: int, zeta: seq<int>, rZeta: int, d: seq<int>, rd: int, s: int)

  /** delta x - v zeta, what the third equation leaves for delta cD + cU. */
  function Third(v: int, zeta: seq<int>, delta: int, x: seq<int>): (r: seq<int>)
    requires |zeta| == |x|
    ensures |r| == |x|
  {
    AddVec(ScaleVec(-v, zeta), ScaleVec(delta, x))
  }

  /** The secrets that the openings of two forks determine. */
  function SecretsFrom<G>(l: int, x: seq<int>, k: Fork<G>, q: Fork<G>, a: seq<int>, ra: int, c: seq<int>,
                          rc: int): RoundSecrets
    requires l > 2 && |a| == |c| == |x|
  {
    var p, rp := SlopeVec(l, k.delta, a, q.delta, c), Slope(l, k.delta, ra, q.delta, rc);
    var zeta, rZeta := RestVec(k.delta, a, p), ra - k.delta * rp;
    RoundSecrets(p, rp, zeta, rZeta,
      SlopeVec(l, k.delta, Third(k.v, zeta, k.delta, x), q.delta, Third(q.v, zeta, q.delta, x)),
      Slope(l, k.delta, -k.v * rZeta + k.v2, q.delta, -q.v * rZeta + q.v2),
      Slope(l, k.delta, k.v, q.delta, q.v))
  }

  predicate RoundSizes<G>(n: nat, b: Round<G>) {
    |b.x| == n && |b.forks| >= 2 && forall j :: 0 <= j < |b.forks| ==> ForkSizes(n, b.forks[j])
  }

  function SecretsOf<G>(l: int, n: nat, b: Round<G>): (s: RoundSecrets)
    requires l > 2 && RoundSizes(n, b)
    ensures |s.p| == |s.zeta| == |s.d| == n
  {
    var (k, q) := (b.forks[0], b.forks[1]);
    var (a, c) := (ForkOpening(l, n, k), ForkOpening(l, n, q));
    SecretsFrom(l, b.x, k, q, a.0, a.1, c.0, c.1)
  }

  // ---------- clashes ----------

  /** The extractor finds two openings in fork j, or its opening is not delta p + zeta. */
  ghost predicate ForkClash<G, C>(pp: Params<G, C>, b: Round<G>, j: nat)
    requires pp.l > 2 && RoundSizes(|pp.f|, b) && j < |b.forks|
  {
    var n := |pp.f|;
    var k, s, a := b.forks[j], SecretsOf(pp.l, n, b), ForkOpening(pp.l, n, b.forks[j]);
    || IsClash(pp, Extract(pp.l, n, k.bs, 0))
    || IsClash(pp, Clash(AddVec(ScaleVec(k.delta, s.p), s.zeta), k.delta * s.rp + s.rZeta, a.0, a.1))
  }

  ghost predicate RoundClash<G, C>(pp: Params<G, C>, b: Round<G>)
    requires pp.l > 2 && RoundSizes(|pp.f|, b)
  {
    exists j :: 0 <= j < |b.forks| && ForkClash(pp, b, j)
  }

  /** The openings of cPi or cD differ between two rounds. */
  ghost predicate CrossClash<G, C>(pp: Params<G, C>, b: Round<G>, b': Round<G>)
    requires pp.l > 2 && RoundSizes(|pp.f|, b) && RoundSizes(|pp.f|, b')
  {
    var s, s' := SecretsOf(pp.l, |pp.f|, b), SecretsOf(pp.l, |pp.f|, b');
    IsClash(pp, Clash(s.p, s.rp, s'.p, s'.rp)) || IsClash(pp, Clash(s.d, s.rd, s'.d, s'.rd))
  }

  // ---------- one fork ----------

  lemma ForkExtracts<G(!new), C>(pp: Params<G, C>, pk: G, cPi: G, cD: G, b: Round<G>, k: Fork<G>)
    requires ValidParams(pp) && 0 < |pp.f| == |b.z| == |b.x| && ForkOk(pp, pk, cPi, cD, b, k)
    ensures ForkSizes(|pp.f|, k)
    ensures var x, a := Extract(pp.l, |pp.f|, k.bs, 0), ForkOpening(pp.l, |pp.f|, k);
      IsClash(pp, x) || (Opens(pp, pp.g.add(Smul(pp.g, k.delta, cPi), b.cZ), a.0, a.1)
        && Rearranged(pp.l, a.0, Rho(b.z, k.delta)))
  {
    hide ValidParams, Cong, CorrectTree, Extract, Rearranged, IsClash, Smul, Com;
    assert pp.l > 2 by { OrderAboveTwo(pp); }
    var m := Rho(b.z, k.delta);
    ExtractionIsSound(pp, m, k.c, k.bs);
    var x := Extract(pp.l, |pp.f|, k.bs, 0);
    if x.Opening? { assert x.a[..|m|] == x.a; }
  }

  // ---------- one round ----------

  /** The third equation without the opened cZ. */
  lemma ThirdOpens<G(!new), C>(pp: Params<G, C>, cZ: G, zeta: seq<int>, rZeta: int, R: G, v: int, v2: int, delta: int,
                               x: seq<int>)
    requires ValidParams(pp) && |zeta| == |x| == |pp.f| && Opens(pp, cZ, zeta, rZeta)
    requires Opens(pp, pp.g.add(Smul(pp.g, v, cZ), R), ScaleVec(delta, x), v2)
    ensures Opens(pp, R, Third(v, zeta, delta, x), -v * rZeta + v2)
  {
    hide IsPrime, Cong, IsGroup, Smul, Com, Clear;
    var g := pp.g;
    OpensCombine(pp, -v, cZ, zeta, rZeta, g.add(Smul(g, v, cZ), R), ScaleVec(delta, x), v2);
    SmulNeg(g, v, cZ);
    Neg(g, Smul(g, v, cZ));
    Assoc(g, Smul(g, -v, cZ), Smul(g, v, cZ), R);
    Unit(g, R);
  }

  /** Two key equations give the key. */
  lemma KeyFound<G(!new), C>(pp: Params<G, C>, pk: G, gU: G, v: int, d: int, v': int, d': int)
    requires ValidParams(pp) && CofactorAt(pp, pk) && !Cong(pp.l, d, d')
    requires Clear(pp.g, Smul(pp.g, v, pp.base)) == Clear(pp.g, pp.g.add(gU, Smul(pp.g, d, pk)))
    requires Clear(pp.g, Smul(pp.g, v', pp.base)) == Clear(pp.g, pp.g.add(gU, Smul(pp.g, d', pk)))
    ensures Clear(pp.g, pk) == Smul(pp.g, Slope(pp.l, d, v, d', v'), Clear(pp.g, pp.base))
  {
    hide IsPrime, Cong, IsGroup, Smul, Clear, ScalarInvert;
    var g, l := pp.g, pp.l;
    var H, B, w := Clear(g, pk), Clear(g, pp.base), ScalarInvert(l, d - d');
    KeyEquationCleared(g, pp.base, gU, pk, v, d);
    KeyEquationCleared(g, pp.base, gU, pk, v', d');
    SubtractEquations(g, Clear(g, gU), d, d', H, v, v', B);
    DifferenceInverted(l, d, d');
    ClearOrder(pp, pk);
    SmulMul(g, w, d - d', H);
    SmulMul(g, w, v - v', B);
    assert w * (d - d') == (d - d') * w;
    SmulCong(g, l, (d - d') * w, 1, H);
    SmulBasics(g, H);
  }

  lemma KeyEquationCleared<G(!new)>(g: Group<G>, B: G, U: G, P: G, v: int, d: int)
    requires IsGroup(g) && Clear(g, Smul(g, v, B)) == Clear(g, g.add(U, Smul(g, d, P)))
    ensures g.add(Clear(g, U), Smul(g, d, Clear(g, P))) == Smul(g, v, Clear(g, B))
  {
    hide IsGroup, Smul, Clear;
    ClearSmul(g, v, B);
    ClearAdd(g, U, Smul(g, d, P));
    ClearSmul(g, d, P);
  }

  /** x is s zeta + d. */
  lemma ResponseIsLine(l: int, x: seq<int>, zeta: seq<int>, v: int, d: int, v': int, d': int)
    requires IsPrime(l) && l > 2 && |x| == |zeta| && !Cong(l, d, d')
    ensures var D := SlopeVec(l, d, Third(v, zeta, d, x), d', Third(v', zeta, d', x));
      CongVec(l, x, AddVec(ScaleVec(Slope(l, d, v, d', v'), zeta), D))
  {
    hide IsPrime, Cong, ScalarInvert;
    DifferenceInverted(l, d, d');
    var w := ScalarInvert(l, d - d');
    var D := SlopeVec(l, d, Third(v, zeta, d, x), d', Third(v', zeta, d', x));
    forall i | 0 <= i < |x| ensures Cong(l, x[i], Slope(l, d, v, d', v') * zeta[i] + D[i]) {
      ResponseEntryIsLine(l, w, x[i], zeta[i], v, d, v', d');
    }
  }

  lemma ResponseEntryIsLine(l: int, w: int, x: int, zeta: int, v: int, d: int, v': int, d': int)
    requires Cong(l, (d - d') * w, 1)
    ensures Cong(l, x, (w * (v - v')) * zeta + w * ((-v * zeta + d * x) + -1 * (-v' * zeta + d' * x)))
  {
    hide Cong;
    var u := (-v * zeta + d * x) + -1 * (-v' * zeta + d' * x);
    assert u == (d - d') * x - (v - v') * zeta by { TwoLines(v, v', zeta); TwoLines(d, d', x); }
    assert w * u == w * ((d - d') * x) - w * ((v - v') * zeta);
    assert w * ((d - d') * x) == ((d - d') * w) * x by { MulSwap(w, 1, d - d', x); }
    assert w * ((v - v') * zeta) == (w * (v - v')) * zeta by { MulSwap(w, 1, v - v', zeta); }
    CongSym(l, (d - d') * w, 1);
    CongBy(l, x, ((d - d') * w) * x, 1, (d - d') * w, x);
  }

  lemma TwoLines(v: int, v': int, t: int)
    ensures (v - v') * t == v * t - v' * t && -v * t == -(v * t) && -v' * t == -(v' * t)
  {
  }

  /** What a round without clashes establishes. */
  ghost predicate RoundFound<G, C>(pp: Params<G, C>, pk: G, cPi: G, cD: G, b: Round<G>, s: RoundSecrets) {
    && |b.x| == |s.p| == |s.zeta| == |s.d| == |pp.f|
    && Opens(pp, cPi, s.p, s.rp) && Opens(pp, b.cZ, s.zeta, s.rZeta) && Opens(pp, cD, s.d, s.rd)
    && Clear(pp.g, pk) == Smul(pp.g, s.s, Clear(pp.g, pp.base))
    && CongVec(pp.l, b.x, AddVec(ScaleVec(s.s, s.zeta), s.d))
  }

  lemma SecretsOpen2<G(!new), C>(pp: Params<G, C>, pk: G, cPi: G, cD: G, b: Round<G>, k: Fork<G>, q: Fork<G>,
                                 a: seq<int>, ra: int, c: seq<int>, rc: int)
    requires ValidParams(pp) && AllCofactor(pp) && 0 < |pp.f| == |b.z| == |b.x| && |a| == |c| == |pp.f|
      && !Cong(pp.l, k.delta, q.delta)
    requires ForkOk(pp, pk, cPi, cD, b, k) && ForkOk(pp, pk, cPi, cD, b, q)
    requires Opens(pp, pp.g.add(Smul(pp.g, k.delta, cPi), b.cZ), a, ra)
    requires Opens(pp, pp.g.add(Smul(pp.g, q.delta, cPi), b.cZ), c, rc)
    ensures RoundFound(pp, pk, cPi, cD, b, SecretsFrom(pp.l, b.x, k, q, a, ra, c, rc))
  {
    hide IsPrime, Cong, IsGroup, CorrectTree, Opens, Smul, Clear, Com, SlopeVec, Slope, RestVec, Third, CofactorAt,
      CongVec, CodecAt, ExpandAt, AllOrder;
    var g := pp.g;
    assert CofactorAt(pp, cPi) && CofactorAt(pp, cD) && CofactorAt(pp, pk);
    var s := SecretsFrom(pp.l, b.x, k, q, a, ra, c, rc);
    ExtractOpenings(pp, cPi, b.cZ, k.delta, a, ra, q.delta, c, rc);
    ThirdOpens(pp, b.cZ, s.zeta, s.rZeta, g.add(Smul(g, k.delta, cD), b.cU), k.v, k.v2, k.delta, b.x);
    ThirdOpens(pp, b.cZ, s.zeta, s.rZeta, g.add(Smul(g, q.delta, cD), b.cU), q.v, q.v2, q.delta, b.x);
    ExtractOpenings(pp, cD, b.cU, k.delta, Third(k.v, s.zeta, k.delta, b.x), -k.v * s.rZeta + k.v2,
                    q.delta, Third(q.v, s.zeta, q.delta, b.x), -q.v * s.rZeta + q.v2);
    KeyFound(pp, pk, b.gU, k.v, k.delta, q.v, q.delta);
    ResponseIsLine(pp.l, b.x, s.zeta, k.v, k.delta, q.v, q.delta);
  }

  /** One fork: unless it clashes, delta p + zeta rearranges z_i + delta i. */
  lemma ForkRearranged<G(!new), C>(pp: Params<G, C>, pk: G, cPi: G, cD: G, b: Round<G>, j: nat)
    requires ValidParams(pp) && 0 < |pp.f| == |b.z| == |b.x| && j < |b.forks| && RoundSizes(|pp.f|, b)
    requires ForkOk(pp, pk, cPi, cD, b, b.forks[j]) && !ForkClash(pp, b, j)
    requires var s := SecretsOf(pp.l, |pp.f|, b); Opens(pp, cPi, s.p, s.rp) && Opens(pp, b.cZ, s.zeta, s.rZeta)
    ensures var s, delta := SecretsOf(pp.l, |pp.f|, b), b.forks[j].delta;
      Rearranged(pp.l, Values(s.zeta, s.p, delta), Values(b.z, Iota(|pp.f|), delta))
  {
    hide IsPrime, Cong, IsGroup, Extract, SecretsOf, IsClash, Opens, Smul, CodecAt, ExpandAt, AllOrder, ForkOpening,
      Rearranged, SameResidues, RoundSizes;
    var n, s, k := |pp.f|, SecretsOf(pp.l, |pp.f|, b), b.forks[j];
    var a := ForkOpening(pp.l, n, k);
    ForkExtracts(pp, pk, cPi, cD, b, k);
    hide ForkOk;
    OpensCombine(pp, k.delta, cPi, s.p, s.rp, b.cZ, s.zeta, s.rZeta);
    ClashIsClash(pp, pp.g.add(Smul(pp.g, k.delta, cPi), b.cZ),
                 AddVec(ScaleVec(k.delta, s.p), s.zeta), k.delta * s.rp + s.rZeta, a.0, a.1);
    hide ForkClash;
    LinesRearranged(pp.l, b.z, s.p, s.zeta, k.delta, a.0);
  }

  lemma LinesRearranged(l: int, z: seq<int>, p: seq<int>, zeta: seq<int>, delta: int, a: seq<int>)
    requires l > 0 && |z| == |p| == |zeta| && Rearranged(l, a, Rho(z, delta))
    requires SameResidues(l, AddVec(ScaleVec(delta, p), zeta), a)
    ensures Rearranged(l, Values(zeta, p, delta), Values(z, Iota(|z|), delta))
  {
    hide Canonical, CanonVec;
    assert Values(zeta, p, delta) == AddVec(ScaleVec(delta, p), zeta) && Values(z, Iota(|z|), delta) == Rho(z, delta);
  }

  /** A round without clashes gives its secrets and a permutation. */
  lemma RoundExtracts<G(!new), C>(pp: Params<G, C>, pk: G, g: seq<G>, h: seq<G>, cPi: G, cD: G, gD: G, b: Round<G>)
    returns (pi: seq<nat>)
    requires ValidParams(pp) && AllCofactor(pp) && 0 < |pp.f| == |g| == |h| < pp.l
    requires RoundOk(pp, pk, g, h, cPi, cD, gD, b)
    requires RoundSizes(|pp.f|, b) && !RoundClash(pp, b)
    ensures var s := SecretsOf(pp.l, |pp.f|, b);
      RoundFound(pp, pk, cPi, cD, b, s) && ReadAlong(pp.l, b.z, s.p, s.zeta, pi)
  {
    hide IsPrime, Cong, IsGroup, Extract, SecretsFrom, IsClash, Opens, Smul, Msm, Clear, ForkOk, CofactorAt, CodecAt,
      ExpandAt, AllOrder, ForkOpening, Rearranged, CongVec, AddVec, ScaleVec, NegVec;
    var n, k, q := |pp.f|, b.forks[0], b.forks[1];
    assert !ForkClash(pp, b, 0) && !ForkClash(pp, b, 1);
    var a, c := ForkOpening(pp.l, n, k), ForkOpening(pp.l, n, q);
    ForkExtracts(pp, pk, cPi, cD, b, k);
    ForkExtracts(pp, pk, cPi, cD, b, q);
    if Cong(pp.l, k.delta, q.delta) { CongSym(pp.l, k.delta, q.delta); }
    SecretsOpen2(pp, pk, cPi, cD, b, k, q, a.0, a.1, c.0, c.1);
    var s := SecretsOf(pp.l, n, b);
    var ds := seq(|b.forks|, j requires 0 <= j < |b.forks| => b.forks[j].delta);
    forall j | 0 <= j < |ds| ensures Rearranged(pp.l, Values(s.zeta, s.p, ds[j]), Values(b.z, Iota(n), ds[j])) {
      assert !ForkClash(pp, b, j);
      ForkRearranged(pp, pk, cPi, cD, b, j);
    }
    pi := LinesMatch(pp.l, b.z, s.p, s.zeta, ds);
  }

  // ---------- several rounds ----------

  lemma SamePermutation(l: int, z: seq<int>, p: seq<int>, zeta: seq<int>, pi: seq<nat>,
                        z': seq<int>, p': seq<int>, zeta': seq<int>, pi': seq<nat>)
    requires l > |p| && CongVec(l, p, p') && ReadAlong(l, z, p, zeta, pi) && ReadAlong(l, z', p', zeta', pi')
    ensures pi == pi'
  {
    hide Cong;
    forall i | 0 <= i < |pi| ensures pi[i] == pi'[i] {
      assert AlongZ(l, z, p, zeta, i, pi[i]) && AlongZ(l, z', p', zeta', i, pi'[i]);
      CongSym(l, p[i], pi[i]);
      CongTrans(l, pi[i], p[i], p'[i]);
      CongTrans(l, pi[i], p'[i], pi'[i]);
      if pi[i] < pi'[i] {
        IndicesDiffer(l, pi[i], pi'[i]);
      } else if pi'[i] < pi[i] {
        CongSym(l, pi[i], pi'[i]);
        IndicesDiffer(l, pi'[i], pi[i]);
      }
    }
  }

  /** With the secrets of another round: x = s' z_pi + d'. */
  lemma ResponseTransfers(l: int, x: seq<int>, z: seq<int>, s: RoundSecrets, s': RoundSecrets, pi: seq<nat>)
    requires |s.zeta| == |s.d| == |s'.d| && CongVec(l, x, AddVec(ScaleVec(s.s, s.zeta), s.d))
    requires ReadAlong(l, z, s.p, s.zeta, pi) && Cong(l, s.s, s'.s) && CongVec(l, s.d, s'.d)
    ensures CongVec(l, x, AddVec(ScaleVec(s'.s, Gather(z, pi)), s'.d))
  {
    hide Cong;
    forall i | 0 <= i < |x| ensures Cong(l, x[i], s'.s * z[pi[i]] + s'.d[i]) {
      assert AlongZ(l, z, s.p, s.zeta, i, pi[i]);
      CongMul(l, s.s, s'.s, s.zeta[i], z[pi[i]]);
      CongAdd(l, s.s * s.zeta[i], s'.s * z[pi[i]], s.d[i], s'.d[i]);
      CongTrans(l, x[i], s.s * s.zeta[i] + s.d[i], s'.s * z[pi[i]] + s'.d[i]);
    }
  }

  /** Two rounds without a clash between them share permutation, key and d. */
  lemma RoundsAgree<G(!new), C>(pp: Params<G, C>, pk: G, cPi: G, cD: G, b: Round<G>, s: RoundSecrets, pi: seq<nat>,
                                b': Round<G>, s': RoundSecrets, pi': seq<nat>)
    requires ValidParams(pp) && |pp.f| < pp.l && Clear(pp.g, pp.base) != pp.g.zero
    requires RoundFound(pp, pk, cPi, cD, b, s) && ReadAlong(pp.l, b.z, s.p, s.zeta, pi)
    requires RoundFound(pp, pk, cPi, cD, b', s') && ReadAlong(pp.l, b'.z, s'.p, s'.zeta, pi')
    requires !IsClash(pp, Clash(s.p, s.rp, s'.p, s'.rp)) && !IsClash(pp, Clash(s.d, s.rd, s'.d, s'.rd))
    ensures pi' == pi && CongVec(pp.l, b'.x, AddVec(ScaleVec(s.s, Gather(b'.z, pi)), s.d))
  {
    hide IsPrime, Cong, IsGroup, IsClash, Opens, Smul, CodecAt, ExpandAt, AllOrder, SameResidues, Clear, ReadAlong;
    var g, l := pp.g, pp.l;
    ClashIsClash(pp, cPi, s.p, s.rp, s'.p, s'.rp);
    ClashIsClash(pp, cD, s.d, s.rd, s'.d, s'.rd);
    SameResiduesCong(l, s.p, s'.p);
    SameResiduesCong(l, s.d, s'.d);
    SamePermutation(l, b.z, s.p, s.zeta, pi, b'.z, s'.p, s'.zeta, pi');
    assert Smul(g, l, Clear(g, pp.base)) == g.zero by { BaseOrder(pp); }
    SameMultiple(g, l, s'.s, s.s, Clear(g, pp.base));
    CongVecSym(l, s.d, s'.d);
    ResponseTransfers(l, b'.x, b'.z, s', s, pi);
  }

  lemma BaseOrder<G(!new), C>(pp: Params<G, C>)
    requires ValidParams(pp)
    ensures Smul(pp.g, pp.l, Clear(pp.g, pp.base)) == pp.g.zero
  {
    SmulOrder(pp.g, pp.l, 8, pp.base);
  }

  lemma CongVecSym(l: int, u: seq<int>, v: seq<int>)
    requires CongVec(l, u, v)
    ensures CongVec(l, v, u)
  {
    hide Cong;
    forall i | 0 <= i < |u| ensures Cong(l, v[i], u[i]) { CongSym(l, u[i], v[i]); }
  }

  // ---------- soundness ----------

  /** Up to points of order dividing 8: pk = s G and h_pi(i) = s g_i. */
  ghost predicate ShuffledBy<G, C>(pp: Params<G, C>, pk: G, g: seq<G>, h: seq<G>, s: int, pi: seq<nat>) {
    && IsPermutation(pi) && |pi| == |g| == |h|
    && Clear(pp.g, pk) == Smul(pp.g, s, Clear(pp.g, pp.base))
    && forall i :: 0 <= i < |pi| ==> Clear(pp.g, h[pi[i]]) == Smul(pp.g, s, Clear(pp.g, g[i]))
  }

  ghost predicate AllRounds<G, C>(pp: Params<G, C>, pk: G, g: seq<G>, h: seq<G>, cPi: G, cD: G, gD: G,
                                  bs: seq<Round<G>>)
    requires pp.l > 2 && 0 < |pp.f| == |g| == |h|
  {
    bs != [] && forall k :: 0 <= k < |bs| ==> RoundOk(pp, pk, g, h, cPi, cD, gD, bs[k])
  }

  ghost predicate AllSizes<G>(n: nat, bs: seq<Round<G>>) {
    forall k :: 0 <= k < |bs| ==> RoundSizes(n, bs[k])
  }

  function Vectors<G>(bs: seq<Round<G>>): (r: seq<seq<int>>)
    ensures |r| == |bs| && forall k :: 0 <= k < |bs| ==> r[k] == bs[k].z
  {
    seq(|bs|, k requires 0 <= k < |bs| => bs[k].z)
  }

  function XVectors<G>(bs: seq<Round<G>>): (r: seq<seq<int>>)
    ensures |r| == |bs| && forall k :: 0 <= k < |bs| ==> r[k] == bs[k].x
  {
    seq(|bs|, k requires 0 <= k < |bs| => bs[k].x)
  }

  /** Two openings of one commitment among those computed from the transcripts. */
  ghost predicate SomeClash<G, C>(pp: Params<G, C>, bs: seq<Round<G>>)
    requires pp.l > 2 && bs != [] && AllSizes(|pp.f|, bs)
  {
    || (exists k :: 0 <= k < |bs| && RoundClash(pp, bs[k]))
    || (exists k :: 0 <= k < |bs| && CrossClash(pp, bs[0], bs[k]))
  }

  lemma RoundHasSizes<G(!new), C>(pp: Params<G, C>, pk: G, g: seq<G>, h: seq<G>, cPi: G, cD: G, gD: G, b: Round<G>)
    requires ValidParams(pp) && 0 < |pp.f| == |g| == |h| && RoundOk(pp, pk, g, h, cPi, cD, gD, b)
    ensures RoundSizes(|pp.f|, b)
  {
    hide ValidParams, Cong, ForkOk, ForkSizes, Msm;
    assert pp.l > 2 by { OrderAboveTwo(pp); }
    forall j | 0 <= j < |b.forks| ensures ForkSizes(|pp.f|, b.forks[j]) {
      ForkExtracts(pp, pk, cPi, cD, b, b.forks[j]);
    }
    assert 2 * |pp.f| * |pp.f| >= 2 by { SquareAtLeastOne(|pp.f|); }
  }

  lemma SquareAtLeastOne(n: nat)
    requires n > 0
    ensures 2 * n * n >= 2
  {
  }

  /** Soundness of the shuffle: transcripts with challenge vectors that span, each with more than
      2 n^2 values of delta and below them the trees of the known-content argument, determine a
      key s and a permutation with pk = s G and h_pi(i) = s g_i, up to points of order dividing
      8, or two openings of one commitment are among those computed from them. */
  lemma ShuffleIsSound<G(!new), C>(pp: Params<G, C>, pk: G, g: seq<G>, h: seq<G>, cPi: G, cD: G, gD: G,
                                   bs: seq<Round<G>>)
    requires ValidParams(pp) && AllCofactor(pp) && 0 < |pp.f| == |g| == |h| < pp.l && pp.base != pp.g.zero
    requires AllRounds(pp, pk, g, h, cPi, cD, gD, bs) && Spanning(pp.l, |pp.f|, Vectors(bs))
    ensures AllSizes(|pp.f|, bs)
    ensures SomeClash(pp, bs) || exists pi :: ShuffledBy(pp, pk, g, h, SecretsOf(pp.l, |pp.f|, bs[0]).s, pi)
  {
    hide ValidParams, Cong, RoundOk, RoundSizes, RoundClash, CrossClash, SecretsOf, Spanning, ShuffledBy, CofactorAt;
    assert pp.l > 2 by { OrderAboveTwo(pp); }
    forall k | 0 <= k < |bs| ensures RoundSizes(|pp.f|, bs[k]) {
      RoundHasSizes(pp, pk, g, h, cPi, cD, gD, bs[k]);
    }
    if !SomeClash(pp, bs) {
      var pi := RoundExtracts(pp, pk, g, h, cPi, cD, gD, bs[0]);
      RoundsCombine(pp, pk, g, h, cPi, cD, gD, bs, pi);
    }
  }

  lemma RoundsCombine<G(!new), C>(pp: Params<G, C>, pk: G, g: seq<G>, h: seq<G>, cPi: G, cD: G, gD: G,
                                  bs: seq<Round<G>>, pi: seq<nat>)
    requires ValidParams(pp) && AllCofactor(pp) && 0 < |pp.f| == |g| == |h| < pp.l && pp.base != pp.g.zero
    requires AllRounds(pp, pk, g, h, cPi, cD, gD, bs) && Spanning(pp.l, |pp.f|, Vectors(bs))
    requires AllSizes(|pp.f|, bs) && !SomeClash(pp, bs)
    requires var s := SecretsOf(pp.l, |pp.f|, bs[0]);
      RoundFound(pp, pk, cPi, cD, bs[0], s) && ReadAlong(pp.l, bs[0].z, s.p, s.zeta, pi)
    ensures ShuffledBy(pp, pk, g, h, SecretsOf(pp.l, |pp.f|, bs[0]).s, pi)
  {
    hide Cong, IsPrime, RoundSizes, RoundClash, SecretsOf, Spanning, Smul, Msm, Opens, Clear, ForkOk, IsClash,
      CodecAt, ExpandAt, AllOrder, AddVec, ScaleVec, NegVec, CofactorAt;
    var G_, l, n := pp.g, pp.l, |pp.f|;
    var s, g8, h8 := SecretsOf(l, n, bs[0]), ClearAll(G_, g), ClearAll(G_, h);
    BaseIsSeen(pp);
    forall k | 0 <= k < |bs|
      ensures |bs[k].z| == |bs[k].x| == n && CongVec(l, bs[k].x, AddVec(ScaleVec(s.s, Gather(bs[k].z, pi)), s.d))
    {
      RoundFollows(pp, pk, g, h, cPi, cD, gD, bs, pi, k);
    }
    ClearedOrders(pp, g);
    ClearedOrders(pp, h);
    assert CofactorAt(pp, gD);
    ClearOrder(pp, gD);
    RelationHolds(G_, l, s.s, s.d, Vectors(bs), XVectors(bs), g8, h8, pi, Clear(G_, gD));
  }

  lemma BaseIsSeen<G(!new), C>(pp: Params<G, C>)
    requires ValidParams(pp) && pp.base != pp.g.zero
    ensures Clear(pp.g, pp.base) != pp.g.zero
  {
    SmulZero(pp.g, pp.l);
    SmulZero(pp.g, 8);
    if Clear(pp.g, pp.base) == pp.g.zero { ClearInjective(pp.g, pp.l, pp.base, pp.g.zero); }
  }

  lemma ClearedOrders<G(!new), C>(pp: Params<G, C>, Ps: seq<G>)
    requires ValidParams(pp) && AllCofactor(pp)
    ensures AllOrder(pp.g, pp.l, ClearAll(pp.g, Ps))
  {
    forall i | 0 <= i < |Ps| ensures Smul(pp.g, pp.l, ClearAll(pp.g, Ps)[i]) == pp.g.zero {
      assert CofactorAt(pp, Ps[i]);
      ClearOrder(pp, Ps[i]);
    }
  }

  lemma RoundFollows<G(!new), C>(pp: Params<G, C>, pk: G, g: seq<G>, h: seq<G>, cPi: G, cD: G, gD: G,
                                 bs: seq<Round<G>>, pi: seq<nat>, k: nat)
    requires ValidParams(pp) && AllCofactor(pp) && 0 < |pp.f| == |g| == |h| < pp.l && Clear(pp.g, pp.base) != pp.g.zero
    requires AllRounds(pp, pk, g, h, cPi, cD, gD, bs) && AllSizes(|pp.f|, bs) && !SomeClash(pp, bs) && k < |bs|
    requires var s := SecretsOf(pp.l, |pp.f|, bs[0]);
      RoundFound(pp, pk, cPi, cD, bs[0], s) && ReadAlong(pp.l, bs[0].z, s.p, s.zeta, pi)
    ensures var s := SecretsOf(pp.l, |pp.f|, bs[0]);
      && |bs[k].z| == |bs[k].x| == |pi| == |pp.f| && IsPermutation(pi)
      && CongVec(pp.l, bs[k].x, AddVec(ScaleVec(s.s, Gather(bs[k].z, pi)), s.d))
  {
    hide Cong, IsPrime, IsGroup, RoundSizes, RoundClash, SecretsOf, Smul, Msm, Opens, Clear, ForkOk, IsClash,
      CodecAt, ExpandAt, AllOrder, AddVec, ScaleVec, NegVec, CofactorAt, RoundFound, ReadAlong;
    var n := |pp.f|;
    assert RoundOk(pp, pk, g, h, cPi, cD, gD, bs[k]) && !RoundClash(pp, bs[k]) && !CrossClash(pp, bs[0], bs[k]);
    var pi' := RoundExtracts(pp, pk, g, h, cPi, cD, gD, bs[k]);
    RoundsAgree(pp, pk, cPi, cD, bs[0], SecretsOf(pp.l, n, bs[0]), pi, bs[k], SecretsOf(pp.l, n, bs[k]), pi');
    AlongIsPermutation(pp.l, bs[k].z, SecretsOf(pp.l, n, bs[k]).p, SecretsOf(pp.l, n, bs[k]).zeta, pi');
  }

  lemma AlongIsPermutation(l: int, z: seq<int>, p: seq<int>, zeta: seq<int>, pi: seq<nat>)
    requires ReadAlong(l, z, p, zeta, pi)
    ensures IsPermutation(pi) && |pi| == |z|
  {
  }

  // ---------- from verdicts ----------

  lemma WithoutBase<G(!new), C>(pp: Params<G, C>, X: G, v2: int, u: seq<int>)
    requires ValidParams(pp) && |u| == |pp.f| && Opens(pp, pp.g.add(X, pp.g.neg(Act(pp, v2, pp.base))), u, 0)
    ensures Opens(pp, X, u, v2)
  {
    hide IsPrime, Cong, IsGroup, Smul, Msm, Clear, Act, ExpandAt, CodecAt, AllOrder;
    var g := pp.g;
    var V, M := Smul(g, v2, pp.base), Msm(g, u, pp.f);
    assert Smul(g, pp.l, pp.base) == g.zero;
    ActIsSmul(pp, v2, pp.base);
    ClearAdd(g, X, g.neg(V));
    ClearNeg(g, V);
    ClearAdd(g, M, V);
    SmulBasics(g, pp.base);
    Unit(g, M);
    Assoc(g, Clear(g, X), g.neg(Clear(g, V)), Clear(g, V));
    Neg(g, Clear(g, V));
    Unit(g, Clear(g, X));
  }

  /** A shuffle proof accepted under three pairs of weights is a fork of a round: an answer of
      the known-content argument, the key equation and the third equation, and the equation of
      the points. */
  lemma VerdictIsFork<G(!new), C>(pp: Params<G, C>, pk: G, g: seq<G>, h: seq<G>, gs: seq<C>, hs: seq<C>,
                                  proof: AdaptedProof<C>, a1: int, a2: int, b1: int, b2: int, answers: seq<Answer>)
    requires ValidParams(pp) && AllCofactor(pp) && 0 < |g| == |h| == |pp.f|
    requires VerifyAdapted(pp, pk, g, h, gs, hs, proof, a1, a2) == Accept
      && VerifyAdapted(pp, pk, g, h, gs, hs, proof, b1, a2) == Accept
    requires VerifyAdapted(pp, pk, g, h, gs, hs, proof, a1, b2) == Accept && !Cong(pp.l, a1, b1) && !Cong(pp.l, a2, b2)
    ensures var d, n, G_ := Derive(pp, pk, |g|, gs, hs, proof), |pp.f|, pp.g;
      && d.Some? && pp.dec(proof.cPi).Some? && |proof.x| == |d.value.z| == n && n <= |proof.psi.f|
        && n <= |proof.psi.fDelta|
      && d.value.zRho == Rho(d.value.z, d.value.delta)
      && Correct(pp, d.value.zRho, d.value.cRho, Branch(d.value.x, d.value.kcD, d.value.kcDelta, d.value.kcA, answers),
                 Answer(d.value.e, proof.psi.f[..n], proof.psi.fDelta[..n], proof.psi.z, proof.psi.zDelta))
      && Clear(G_, d.value.cRho) == Clear(G_, G_.add(Smul(G_, d.value.delta, pp.dec(proof.cPi).value), d.value.cZ))
      && Clear(G_, Smul(G_, proof.v, pp.base)) == Clear(G_, G_.add(d.value.gU, Smul(G_, d.value.delta, pk)))
      && Opens(pp, G_.add(Smul(G_, proof.v, d.value.cZ), G_.add(Smul(G_, d.value.delta, d.value.cD), d.value.cU)),
               ScaleVec(d.value.delta, proof.x), proof.v2)
      && Clear(G_, d.value.gD) == Msm(G_, proof.x + NegVec(d.value.z), ClearAll(G_, g) + ClearAll(G_, h))
  {
    hide IsPrime, IsGroup, Cong, FinalCheck, Act, ActMsm, Com3, Correct, Opens, CofactorAt, Smul, Msm, Clear, CodecAt,
      ExpandAt, AllOrder, ChallengeZ, ChallengeDelta, KnownX, KnownE, BatchLeft, BatchVector, Commit, Com1, Com2;
    var G_, n, t := pp.g, |pp.f|, Derive(pp, pk, |g|, gs, hs, proof).value;
    AdaptedIsCorrect(pp, pk, g, h, gs, hs, proof, a1, a2, b1, b2, answers);
    VerdictEquations(pp, pk, g, h, gs, hs, proof, a1, a2);
    hide VerifyAdapted, Derive;
    var cPi := pp.dec(proof.cPi).value;
    assert CofactorAt(pp, cPi) && CofactorAt(pp, pk) && CofactorAt(pp, t.cZ) && CofactorAt(pp, t.cD);
    assert proof.x[..n] == proof.x;
    SameCleared(pp, t.delta, cPi, t.cZ);
    Comm(G_, t.cZ, Act(pp, t.delta, cPi));
    KeyCleared(pp, proof.v, t.gU, t.delta, pk);
    ThirdRegrouped(pp, t, proof.v, proof.v2, ScaleVec(t.delta, proof.x));
    PointsCleared(pp, proof.x + NegVec(t.z), g, h);
  }

  lemma VerdictEquations<G(!new), C>(pp: Params<G, C>, pk: G, g: seq<G>, h: seq<G>, gs: seq<C>, hs: seq<C>,
                                     proof: AdaptedProof<C>, a1: int, a2: int)
    requires ValidParams(pp) && 0 < |g| == |h| == |pp.f| && VerifyAdapted(pp, pk, g, h, gs, hs, proof, a1, a2) == Accept
    ensures var d := Derive(pp, pk, |g|, gs, hs, proof);
      && d.Some? && pp.dec(proof.cPi).Some? && |proof.x| == |d.value.z| == |pp.f|
      && d.value.zRho == Rho(d.value.z, d.value.delta)
      && d.value.cRho == pp.g.add(d.value.cZ, Act(pp, d.value.delta, pp.dec(proof.cPi).value))
      && Act(pp, proof.v, pp.base) == pp.g.add(d.value.gU, Act(pp, d.value.delta, pk))
      && d.value.gD == ActMsm(pp, proof.x + NegVec(d.value.z), g + h)
  {
    hide IsPrime, IsGroup, FinalCheck, Act, ActMsm, Commit, BatchVector, BatchLeft, Com1, Com2, Com3,
      ChallengeZ, ChallengeDelta, KnownX, KnownE, Smul;
    assert ExpandAt(pp, ChallengeZ(pp, pk, gs, hs, proof.cPi, proof.cD, proof.gD), |g|);
  }

  lemma KeyCleared<G(!new), C>(pp: Params<G, C>, v: int, U: G, delta: int, pk: G)
    requires ValidParams(pp) && CofactorAt(pp, pk) && Act(pp, v, pp.base) == pp.g.add(U, Act(pp, delta, pk))
    ensures Clear(pp.g, Smul(pp.g, v, pp.base)) == Clear(pp.g, pp.g.add(U, Smul(pp.g, delta, pk)))
  {
    hide IsPrime, Cong, IsGroup, Act, Smul, Clear;
    assert Smul(pp.g, pp.l, pp.base) == pp.g.zero;
    ActIsSmul(pp, v, pp.base);
    SameCleared(pp, delta, pk, U);
    Comm(pp.g, U, Act(pp, delta, pk));
    Comm(pp.g, U, Smul(pp.g, delta, pk));
  }

  lemma ThirdRegrouped<G(!new), C>(pp: Params<G, C>, t: Derived<G>, v: int, v2: int, u: seq<int>)
    requires ValidParams(pp) && |u| == |pp.f| && CofactorAt(pp, t.cZ) && CofactorAt(pp, t.cD)
      && Opens(pp, Com3(pp, t, v, v2), u, 0)
    ensures Opens(pp, pp.g.add(Smul(pp.g, v, t.cZ), pp.g.add(Smul(pp.g, t.delta, t.cD), t.cU)), u, v2)
  {
    hide IsPrime, Cong, IsGroup, Act, Smul, Clear, Com;
    var g := pp.g;
    var A, B := Act(pp, v, t.cZ), Act(pp, t.delta, t.cD);
    WithoutBase(pp, g.add(g.add(A, B), t.cU), v2, u);
    Assoc(g, A, B, t.cU);
    SameCleared(pp, v, t.cZ, g.add(B, t.cU));
    SameCleared(pp, t.delta, t.cD, t.cU);
    ClearAdd(g, Smul(g, v, t.cZ), g.add(B, t.cU));
    ClearAdd(g, Smul(g, v, t.cZ), g.add(Smul(g, t.delta, t.cD), t.cU));
  }

  lemma PointsCleared<G(!new), C>(pp: Params<G, C>, ks: seq<int>, g: seq<G>, h: seq<G>)
    requires ValidParams(pp) && AllCofactor(pp) && |ks| == |g| + |h|
    ensures Clear(pp.g, ActMsm(pp, ks, g + h)) == Msm(pp.g, ks, ClearAll(pp.g, g) + ClearAll(pp.g, h))
  {
    hide IsPrime, Cong, IsGroup, Msm, Smul, CofactorAt, Clear;
    ClearMsm(pp.g, CanonVec(pp.l, ks), g + h);
    assert ClearAll(pp.g, g + h) == ClearAll(pp.g, g) + ClearAll(pp.g, h);
    ClearedOrders(pp, g + h);
    ActMsmIsMsm(pp, ks, ClearAll(pp.g, g + h));
  }
}
