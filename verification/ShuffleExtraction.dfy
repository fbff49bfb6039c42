/** Extraction for the known-content shuffle argument (src/aok.rs): enough accepting transcripts
    give an opening of the commitment to a rearrangement of the known vector, or two openings
    of one commitment. */
module ShuffleExtraction {
  import opened Wrappers
  import opened Arith
  import opened Fermat
  import opened Groups
  import opened Polynomials
  import opened ShuffleArgument
  import opened ShuffleSoundness
  import opened Cofactor

  // ---------- openings from two responses ----------

  /** (u - u') / (e - e') and what is left of u. */
  function SlopeVec(l: int, e: int, u: seq<int>, e': int, u': seq<int>): (r: seq<int>)
    requires l > 2 && |u| == |u'|
    ensures |r| == |u|
  {
    ScaleVec(ScalarInvert(l, e - e'), AddVec(u, ScaleVec(-1, u')))
  }

  function Slope(l: int, e: int, z: int, e': int, z': int): int
    requires l > 2
  {
    ScalarInvert(l, e - e') * (z - z')
  }

  function RestVec(e: int, u: seq<int>, a: seq<int>): (r: seq<int>)
    requires |u| == |a|
    ensures |r| == |u|
  {
    AddVec(u, ScaleVec(-e, a))
  }

  lemma DifferenceInverted(l: int, e: int, e': int)
    requires IsPrime(l) && l > 2 && !Cong(l, e, e')
    ensures Cong(l, (e - e') * ScalarInvert(l, e - e'), 1)
  {
    hide Cong, IsPrime;
    if Cong(l, e - e', 0) { CongBy(l, e, e', e - e', 0, 1); }
    InverseOfChallenge(l, e - e');
  }

  /** Two accepting responses to different challenges under the same commitments open both, in
      the prime-order subgroup: c = Com(a) and cD = Com(d), with both responses of the form
      e a + d. */
  lemma ExtractOpeningsInSubgroup<G(!new), C>(pp: Params<G, C>, c: G, cD: G, e: int, f: seq<int>, z: int, e': int,
                                              f': seq<int>, z': int)
    requires ValidParams(pp) && |f| == |f'| == |pp.f| && !Cong(pp.l, e, e')
    requires Smul(pp.g, pp.l, c) == pp.g.zero
    requires pp.g.add(Smul(pp.g, e, c), cD) == Com(pp, f, z) && pp.g.add(Smul(pp.g, e', c), cD) == Com(pp, f', z')
    ensures var a, ra := SlopeVec(pp.l, e, f, e', f'), Slope(pp.l, e, z, e', z');
      c == Com(pp, a, ra) && cD == Com(pp, RestVec(e, f, a), z - e * ra)
      && CongVec(pp.l, AddVec(ScaleVec(e, a), RestVec(e, f, a)), f)
        && CongVec(pp.l, AddVec(ScaleVec(e', a), RestVec(e, f, a)), f')
  {
    hide Cong, IsPrime, IsGroup, Com, Smul, ExpandAt, CodecAt, AllOrder, ScalarInvert;
    var l := pp.l;
    DifferenceInverted(l, e, e');
    var a, ra := SlopeVec(l, e, f, e', f'), Slope(l, e, z, e', z');
    DifferenceOpens(pp, c, cD, e, f, z, e', f', z', ScalarInvert(l, e - e'));
    ComScale(pp, -e, a, ra);
    ComAdd(pp, f, z, ScaleVec(-e, a), -e * ra);
    RestOpens(pp, c, cD, e, f, z);
    OpeningsRespond(l, e, e', ScalarInvert(l, e - e'), f, f');
  }

  lemma OpeningsRespond(l: int, e: int, e': int, w: int, f: seq<int>, f': seq<int>)
    requires |f| == |f'| && Cong(l, (e - e') * w, 1)
    ensures var a := ScaleVec(w, AddVec(f, ScaleVec(-1, f'))); var d := AddVec(f, ScaleVec(-e, a));
      CongVec(l, AddVec(ScaleVec(e, a), d), f) && CongVec(l, AddVec(ScaleVec(e', a), d), f')
  {
    hide Cong;
    var a := ScaleVec(w, AddVec(f, ScaleVec(-1, f')));
    var d := AddVec(f, ScaleVec(-e, a));
    forall i | 0 <= i < |f| ensures Cong(l, e * a[i] + d[i], f[i]) && Cong(l, e' * a[i] + d[i], f'[i]) {
      ResponseForms(l, e, e', w, f[i], f'[i]);
    }
  }

  lemma ResponseForms(l: int, e: int, e': int, w: int, f: int, f': int)
    requires Cong(l, (e - e') * w, 1)
    ensures var a := w * (f + -1 * f'); var d := f + -e * a; Cong(l, e * a + d, f) && Cong(l, e' * a + d, f')
  {
    hide Cong;
    var u := f - f';
    var a := w * u;
    assert f + -1 * f' == u;
    assert -e * a == -(e * a);
    CongRefl(l, f);
    assert e' * a + (f - e * a) == f - (e - e') * a;
    assert (e - e') * (w * u) == u * ((e - e') * w) by { MulSwap(e - e', w, u, 1); }
    CongBy(l, f - (e - e') * a, f', (e - e') * w, 1, -u);
  }

  /** In the whole group, up to points of order dividing 8. */
  lemma ExtractOpenings<G(!new), C>(pp: Params<G, C>, c: G, cD: G, e: int, f: seq<int>, z: int, e': int, f': seq<int>,
                                    z': int)
    requires ValidParams(pp) && |f| == |f'| == |pp.f| && !Cong(pp.l, e, e') && CofactorAt(pp, c)
    requires Opens(pp, pp.g.add(Smul(pp.g, e, c), cD), f, z) && Opens(pp, pp.g.add(Smul(pp.g, e', c), cD), f', z')
    ensures var a, ra := SlopeVec(pp.l, e, f, e', f'), Slope(pp.l, e, z, e', z');
      Opens(pp, c, a, ra) && Opens(pp, cD, RestVec(e, f, a), z - e * ra)
      && CongVec(pp.l, AddVec(ScaleVec(e, a), RestVec(e, f, a)), f)
        && CongVec(pp.l, AddVec(ScaleVec(e', a), RestVec(e, f, a)), f')
  {
    hide Cong, IsPrime, IsGroup, Com, Smul, Clear, ScalarInvert, SlopeVec, Slope, RestVec;
    var g, q := pp.g, ClearedParams(pp);
    var a, ra := SlopeVec(pp.l, e, f, e', f'), Slope(pp.l, e, z, e', z');
    ClearedIsValid(pp);
    ClearOrder(pp, c);
    ClearedEquation(pp, c, cD, e, f, z);
    ClearedEquation(pp, c, cD, e', f', z');
    ExtractOpeningsInSubgroup(q, Clear(g, c), Clear(g, cD), e, f, z, e', f', z');
    ClearedCom(pp, a, ra);
    ClearedCom(pp, RestVec(e, f, a), z - e * ra);
  }

  lemma ClearedEquation<G(!new), C>(pp: Params<G, C>, c: G, cD: G, e: int, f: seq<int>, z: int)
    requires ValidParams(pp) && |f| == |pp.f| && Opens(pp, pp.g.add(Smul(pp.g, e, c), cD), f, z)
    ensures pp.g.add(Smul(pp.g, e, Clear(pp.g, c)), Clear(pp.g, cD)) == Com(ClearedParams(pp), f, z)
  {
    hide Cong, IsPrime, Com, Smul, Clear;
    ClearedCom(pp, f, z);
    ClearAdd(pp.g, Smul(pp.g, e, c), cD);
    ClearSmul(pp.g, e, c);
  }

  /** c is w times the difference of the two openings. */
  lemma DifferenceOpens<G(!new), C>(pp: Params<G, C>, c: G, cD: G, e: int, f: seq<int>, z: int, e': int, f': seq<int>,
                                    z': int, w: int)
    requires ValidParams(pp) && |f| == |f'| == |pp.f| && Cong(pp.l, (e - e') * w, 1) && Smul(pp.g, pp.l, c) == pp.g.zero
    requires pp.g.add(Smul(pp.g, e, c), cD) == Com(pp, f, z) && pp.g.add(Smul(pp.g, e', c), cD) == Com(pp, f', z')
    ensures c == Com(pp, ScaleVec(w, AddVec(f, ScaleVec(-1, f'))), w * (z - z'))
  {
    hide Cong, IsPrime, IsGroup, Com, Smul, ExpandAt, CodecAt, AllOrder;
    var g := pp.g;
    ComScale(pp, -1, f', z');
    ComAdd(pp, f, z, ScaleVec(-1, f'), -1 * z');
    ComScale(pp, w, AddVec(f, ScaleVec(-1, f')), z + -1 * z');
    SubtractCommon(g, c, cD, e, e', Com(pp, f, z), Com(pp, f', z'));
    SmulMul(g, w, e - e', c);
    assert w * (e - e') == (e - e') * w;
    SmulCong(g, pp.l, (e - e') * w, 1, c);
    SmulBasics(g, c);
  }

  lemma SubtractCommon<G(!new)>(g: Group<G>, c: G, cD: G, e: int, e': int, X: G, Y: G)
    requires IsGroup(g) && g.add(Smul(g, e, c), cD) == X && g.add(Smul(g, e', c), cD) == Y
    ensures Smul(g, e - e', c) == g.add(X, Smul(g, -1, Y))
  {
    hide IsGroup, Smul;
    SmulBasics(g, Y);
    SmulBasics(g, cD);
    NegSum(g, Smul(g, e', c), cD);
    SmulNeg(g, e', c);
    Interchange(g, Smul(g, e, c), cD, Smul(g, -e', c), g.neg(cD));
    SmulAdd(g, e, -e', c);
    Neg(g, cD);
    Unit(g, Smul(g, e - e', c));
  }

  /** What is left of the first commitment. */
  lemma RestOpens<G(!new), C>(pp: Params<G, C>, c: G, cD: G, e: int, f: seq<int>, z: int)
    requires ValidParams(pp) && |f| == |pp.f| && pp.g.add(Smul(pp.g, e, c), cD) == Com(pp, f, z)
    ensures cD == pp.g.add(Com(pp, f, z), Smul(pp.g, -e, c))
  {
    hide IsGroup, Smul, Com, ExpandAt, CodecAt, AllOrder;
    var g, X := pp.g, Smul(pp.g, e, c);
    SmulNeg(g, e, c);
    Comm(g, X, cD);
    Assoc(g, cD, X, g.neg(X));
    Neg(g, X);
    Unit(g, cD);
  }

  /** The cofactor is needed: a commitment moved by a point of order dividing 8 is opened at the
      challenges 8 and 16, and commits to nothing. */
  lemma TorsionCommitmentOpened<G(!new), C>(pp: Params<G, C>, T: G, u: seq<int>, r: int, d: seq<int>, rd: int)
    requires ValidParams(pp) && pp.l > 16 && |u| == |d| == |pp.f| && T != pp.g.zero && Clear(pp.g, T) == pp.g.zero
    ensures var g := pp.g; var c, cD := g.add(Com(pp, u, r), T), Com(pp, d, rd);
      && !Cong(pp.l, 8, 16) && (forall v, s :: |v| == |pp.f| ==> c != Com(pp, v, s))
      && g.add(Smul(g, 8, c), cD) == Com(pp, AddVec(ScaleVec(8, u), d), 8 * r + rd)
      && g.add(Smul(g, 16, c), cD) == Com(pp, AddVec(ScaleVec(16, u), d), 16 * r + rd)
  {
    hide IsPrime, Cong, Com, Smul, Clear, IsGroup;
    var g, P := pp.g, Com(pp, u, r);
    CommitIsCom(pp, u, r);
    ShiftedIsOutside(g, pp.l, P, T);
    forall v, s | |v| == |pp.f| ensures g.add(P, T) != Com(pp, v, s) { CommitIsCom(pp, v, s); }
    EightIsUnit(pp.l);
    if Cong(pp.l, 8, 16) { CongBy(pp.l, 8, 0, 8, 16, -1); }
    ShiftVanishes(g, 1, P, T);
    ShiftVanishes(g, 2, P, T);
    ComScale(pp, 8, u, r);
    ComScale(pp, 16, u, r);
    ComAdd(pp, ScaleVec(8, u), 8 * r, d, rd);
    ComAdd(pp, ScaleVec(16, u), 16 * r, d, rd);
  }

  // ---------- transcripts ----------

  /** One answered challenge; its two response vectors have the commitments' length. */
  datatype Answer = Answer(e: int, f: seq<int>, fDelta: seq<int>, z: int, zDelta: int)

  /** What was sent after the challenge x, and several answered second challenges. */
  datatype Branch<G> = Branch(x: int, cD: G, cDelta: G, cA: G, answers: seq<Answer>)

  ghost predicate Correct<G, C>(pp: Params<G, C>, m: seq<int>, c: G, b: Branch<G>, r: Answer)
    requires pp.l > 2 && 0 < |m| <= |pp.f|
  {
    && |r.f| == |r.fDelta| == |pp.f|
    && Opens(pp, pp.g.add(Smul(pp.g, r.e, c), b.cD), r.f, r.z)
    && Opens(pp, pp.g.add(Smul(pp.g, r.e, b.cA), b.cDelta), r.fDelta, r.zDelta)
    && FinalCheck(pp.l, m, r.f, r.fDelta, r.e, b.x)
  }

  ghost predicate Challenges(l: int, rs: seq<Answer>) {
    && (forall i, j :: 0 <= i < j < |rs| ==> !Cong(l, rs[j].e, rs[i].e))
    && (forall i :: 0 <= i < |rs| ==> !Cong(l, rs[i].e, 0))
  }

  /** More than n different nonzero challenges answered under the same commitments. */
  ghost predicate CorrectBranch<G, C>(pp: Params<G, C>, m: seq<int>, c: G, b: Branch<G>)
    requires pp.l > 2 && 0 < |m| <= |pp.f|
  {
    && |b.answers| > |m| && Challenges(pp.l, b.answers)
    && CofactorAt(pp, c) && CofactorAt(pp, b.cA)
    && (forall k :: 0 <= k < |b.answers| ==> Correct(pp, m, c, b, b.answers[k]))
  }

  /** Branches for at least n different first challenges. */
  ghost predicate CorrectTree<G, C>(pp: Params<G, C>, m: seq<int>, c: G, bs: seq<Branch<G>>)
    requires pp.l > 2 && 0 < |m| <= |pp.f|
  {
    && |bs| >= |m| && (forall i, j :: 0 <= i < j < |bs| ==> !Cong(pp.l, bs[j].x, bs[i].x))
    && (forall k :: 0 <= k < |bs| ==> CorrectBranch(pp, m, c, bs[k]))
  }

  // ---------- the extractor ----------

  datatype Extraction = Opening(a: seq<int>, r: int) | Clash(u: seq<int>, r: int, v: seq<int>, s: int)

  /** What the first two answers of a branch say is behind the four commitments. */
  datatype Secrets = Secrets(o: Openings, ra: int, rd: int, rb: int, rD: int)

  predicate Sizes(n: nat, rs: seq<Answer>) {
    |rs| >= 2 && forall i :: 0 <= i < |rs| ==> |rs[i].f| == |rs[i].fDelta| == n
  }

  function BranchSecrets(l: int, n: nat, rs: seq<Answer>): (s: Secrets)
    requires l > 2 && Sizes(n, rs)
    ensures |s.o.a| == |s.o.d| == |s.o.b| == |s.o.D| == n
  {
    var (r, q) := (rs[0], rs[1]);
    var a, ra := SlopeVec(l, r.e, r.f, q.e, q.f), Slope(l, r.e, r.z, q.e, q.z);
    var b, rb := SlopeVec(l, r.e, r.fDelta, q.e, q.fDelta), Slope(l, r.e, r.zDelta, q.e, q.zDelta);
    Secrets(Openings(a, RestVec(r.e, r.f, a), b, RestVec(r.e, r.fDelta, b)), ra, r.z - r.e * ra, rb,
      r.zDelta - r.e * rb)
  }

  predicate SameResidues(l: int, u: seq<int>, v: seq<int>)
    requires l > 0
  {
    CanonVec(l, u) == CanonVec(l, v)
  }

  /** An answer that does not continue the first two opens a commitment a second time. */
  function AnswerClash(l: int, n: nat, s: Secrets, r: Answer): Option<Extraction>
    requires l > 2 && |s.o.a| == |s.o.d| == |s.o.b| == |s.o.D| == |r.f| == |r.fDelta| == n
  {
    var (f, fDelta) := Responses(s.o, r.e);
    if !SameResidues(l, f, r.f) then Some(Clash(f, r.e * s.ra + s.rd, r.f, r.z))
    else if !SameResidues(l, fDelta, r.fDelta) then Some(Clash(fDelta, r.e * s.rb + s.rD, r.fDelta, r.zDelta))
    else None
  }

  function BranchClash(l: int, n: nat, s: Secrets, rs: seq<Answer>, k: nat): Option<Extraction>
    requires l > 2 && Sizes(n, rs) && |s.o.a| == |s.o.d| == |s.o.b| == |s.o.D| == n && k <= |rs|
    decreases |rs| - k
  {
    if k == |rs| then None
    else
      var x := AnswerClash(l, n, s, rs[k]);
      if x.Some? then x else BranchClash(l, n, s, rs, k + 1)
  }

  /** Search the branches from k on for two openings of one commitment, comparing each branch's
      opening of c with that of the first. */
  function Extract<G>(l: int, n: nat, bs: seq<Branch<G>>, k: nat): Extraction
    requires l > 2 && bs != [] && k <= |bs| && forall i :: 0 <= i < |bs| ==> Sizes(n, bs[i].answers)
    decreases |bs| - k
  {
    var first := BranchSecrets(l, n, bs[0].answers);
    if k == |bs| then Opening(first.o.a, first.ra)
    else
      var s := BranchSecrets(l, n, bs[k].answers);
      var x := BranchClash(l, n, s, bs[k].answers, 0);
      if x.Some? then x.value
      else if !SameResidues(l, first.o.a, s.o.a) then Clash(first.o.a, first.ra, s.o.a, s.ra)
      else Extract(l, n, bs, k + 1)
  }

  // ---------- the extractor is right ----------

  /** Two openings of one commitment to different vectors. */
  ghost predicate IsClash<G, C>(pp: Params<G, C>, x: Extraction) {
    x.Clash? && |x.u| == |x.v| == |pp.f| && Com(pp, x.u, x.r) == Com(pp, x.v, x.s) && !CongVec(pp.l, x.u, x.v)
  }

  lemma SameResiduesCong(l: int, u: seq<int>, v: seq<int>)
    requires l > 0 && |u| == |v|
    ensures SameResidues(l, u, v) <==> CongVec(l, u, v)
  {
    hide Cong, Canonical;
    forall i | 0 <= i < |u| ensures CanonVec(l, u)[i] == CanonVec(l, v)[i] <==> Cong(l, u[i], v[i]) {
      CongIffCanonical(l, u[i], v[i]);
    }
    if CongVec(l, u, v) { assert CanonVec(l, u) == CanonVec(l, v); }
  }

  /** The secrets of a branch open its commitments. */
  ghost predicate SecretsOpen<G, C>(pp: Params<G, C>, c: G, b: Branch<G>, s: Secrets) {
    && |s.o.a| == |s.o.d| == |s.o.b| == |s.o.D| == |pp.f|
    && Opens(pp, c, s.o.a, s.ra) && Opens(pp, b.cD, s.o.d, s.rd)
    && Opens(pp, b.cA, s.o.b, s.rb) && Opens(pp, b.cDelta, s.o.D, s.rD)
  }

  lemma BranchOpens<G(!new), C>(pp: Params<G, C>, m: seq<int>, c: G, b: Branch<G>)
    requires ValidParams(pp) && 0 < |m| <= |pp.f| && CorrectBranch(pp, m, c, b)
    ensures Sizes(|pp.f|, b.answers) && SecretsOpen(pp, c, b, BranchSecrets(pp.l, |pp.f|, b.answers))
  {
    hide Cong, IsPrime, IsGroup, SlopeVec, Slope, RestVec, FinalCheck, Opens, CofactorAt, CongVec, ExpandAt, CodecAt,
      AllOrder;
    FirstTwo(pp, m, c, b);
    var r, q := b.answers[0], b.answers[1];
    hide CorrectBranch;
    ExtractOpenings(pp, c, b.cD, r.e, r.f, r.z, q.e, q.f, q.z);
    ExtractOpenings(pp, b.cA, b.cDelta, r.e, r.fDelta, r.zDelta, q.e, q.fDelta, q.zDelta);
  }

  lemma FirstTwo<G(!new), C>(pp: Params<G, C>, m: seq<int>, c: G, b: Branch<G>)
    requires pp.l > 2 && 0 < |m| <= |pp.f| && CorrectBranch(pp, m, c, b)
    ensures Sizes(|pp.f|, b.answers) && CofactorAt(pp, c) && CofactorAt(pp, b.cA)
    ensures var r, q := b.answers[0], b.answers[1];
      && !Cong(pp.l, r.e, q.e)
      && Opens(pp, pp.g.add(Smul(pp.g, r.e, c), b.cD), r.f, r.z)
        && Opens(pp, pp.g.add(Smul(pp.g, q.e, c), b.cD), q.f, q.z)
      && Opens(pp, pp.g.add(Smul(pp.g, r.e, b.cA), b.cDelta), r.fDelta, r.zDelta)
      && Opens(pp, pp.g.add(Smul(pp.g, q.e, b.cA), b.cDelta), q.fDelta, q.zDelta)
  {
    hide Cong, FinalCheck, Opens, CofactorAt;
    var r, q := b.answers[0], b.answers[1];
    assert Correct(pp, m, c, b, r) && Correct(pp, m, c, b, q);
    if Cong(pp.l, r.e, q.e) { CongSym(pp.l, r.e, q.e); }
  }

  lemma ClashIsClash<G(!new), C>(pp: Params<G, C>, P: G, u: seq<int>, r: int, v: seq<int>, s: int)
    requires ValidParams(pp) && |u| == |v| == |pp.f| && Opens(pp, P, u, r) && Opens(pp, P, v, s)
    ensures !SameResidues(pp.l, u, v) ==> IsClash(pp, Clash(u, r, v, s))
  {
    hide IsGroup, IsPrime, Cong, Com, Opens;
    OpensTwice(pp, P, u, r, v, s);
    SameResiduesCong(pp.l, u, v);
  }

  lemma AnswerClashIsClash<G(!new), C>(pp: Params<G, C>, m: seq<int>, c: G, b: Branch<G>, s: Secrets, r: Answer)
    requires ValidParams(pp) && 0 < |m| <= |pp.f| && SecretsOpen(pp, c, b, s) && Correct(pp, m, c, b, r)
    ensures var x := AnswerClash(pp.l, |pp.f|, s, r);
      if x.Some? then IsClash(pp, x.value) else Continues(pp.l, s, r)
  {
    hide IsGroup, IsPrime, Cong, Com, Opens, Smul, FinalCheck, SameResidues, IsClash;
    OpensCombine(pp, r.e, c, s.o.a, s.ra, b.cD, s.o.d, s.rd);
    OpensCombine(pp, r.e, b.cA, s.o.b, s.rb, b.cDelta, s.o.D, s.rD);
    var (f, fDelta) := Responses(s.o, r.e);
    ClashIsClash(pp, pp.g.add(Smul(pp.g, r.e, c), b.cD), f, r.e * s.ra + s.rd, r.f, r.z);
    ClashIsClash(pp, pp.g.add(Smul(pp.g, r.e, b.cA), b.cDelta), fDelta, r.e * s.rb + s.rD, r.fDelta, r.zDelta);
  }

  ghost predicate Continues(l: int, s: Secrets, r: Answer)
    requires l > 0 && |s.o.a| == |s.o.d| && |s.o.b| == |s.o.D|
  {
    SameResidues(l, Responses(s.o, r.e).0, r.f) && SameResidues(l, Responses(s.o, r.e).1, r.fDelta)
  }

  lemma {:induction false} BranchClashIsClash<G(!new), C>(pp: Params<G, C>, m: seq<int>, c: G, b: Branch<G>,
                                                          s: Secrets, k: nat)
    requires ValidParams(pp) && 0 < |m| <= |pp.f| && CorrectBranch(pp, m, c, b) && SecretsOpen(pp, c, b, s)
    requires k <= |b.answers| && Sizes(|pp.f|, b.answers)
    ensures ClashOrContinues(pp, s, b.answers, k, BranchClash(pp.l, |pp.f|, s, b.answers, k))
    decreases |b.answers| - k
  {
    hide ValidParams, Cong, Opens, AnswerClash, SameResidues, IsClash, CorrectBranch, Continues;
    assert pp.l > 2 by { OrderAboveTwo(pp); }
    if k < |b.answers| {
      BranchClashIsClash(pp, m, c, b, s, k + 1);
      CorrectAnswer(pp, m, c, b, k);
      AnswerClashIsClash(pp, m, c, b, s, b.answers[k]);
      hide SecretsOpen;
    }
  }

  /** What a search from k on tells. */
  ghost predicate ClashOrContinues<G, C>(pp: Params<G, C>, s: Secrets, rs: seq<Answer>, k: nat, x: Option<Extraction>)
    requires pp.l > 0 && |s.o.a| == |s.o.d| && |s.o.b| == |s.o.D|
  {
    if x.Some? then IsClash(pp, x.value) else forall j :: k <= j < |rs| ==> Continues(pp.l, s, rs[j])
  }

  lemma OrderAboveTwo<G(!new), C>(pp: Params<G, C>)
    requires ValidParams(pp)
    ensures pp.l > 2
  {
  }

  lemma CorrectAnswer<G, C>(pp: Params<G, C>, m: seq<int>, c: G, b: Branch<G>, k: nat)
    requires pp.l > 2 && 0 < |m| <= |pp.f| && CorrectBranch(pp, m, c, b) && k < |b.answers|
    ensures Correct(pp, m, c, b, b.answers[k]) && !Cong(pp.l, b.answers[k].e, 0)
  {
    hide Correct, Cong;
  }

  // ---------- accepted challenges ----------

  lemma {:induction false} FoldFCong(l: int, f: seq<int>, fd: seq<int>, g: seq<int>, gd: seq<int>, e: int, x: int,
                                     i: nat)
    requires l > 2 && i < |f| && i < |g| && i <= |fd| && i <= |gd|
    requires (forall j :: 0 <= j <= i ==> Cong(l, f[j], g[j])) && (forall j :: 0 <= j < i ==> Cong(l, fd[j], gd[j]))
    ensures Cong(l, FoldF(l, f, fd, e, x, i), FoldF(l, g, gd, e, x, i))
    decreases i
  {
    hide Cong, ScalarInvert;
    if i == 0 {
      CongBy(l, f[0] - e * x, g[0] - e * x, f[0], g[0], 1);
    } else {
      FoldFCong(l, f, fd, g, gd, e, x, i - 1);
      FoldFNext(l, f, fd, e, x, i);
      FoldFNext(l, g, gd, e, x, i);
      hide FoldF;
      var F, H := FoldF(l, f, fd, e, x, i - 1), FoldF(l, g, gd, e, x, i - 1);
      CongBy(l, f[i] - e * x, g[i] - e * x, f[i], g[i], 1);
      CongMul(l, F, H, f[i] - e * x, g[i] - e * x);
      CongAdd(l, F * (f[i] - e * x), H * (g[i] - e * x), fd[i - 1], gd[i - 1]);
      CongRefl(l, ScalarInvert(l, e));
      CongMul(l, F * (f[i] - e * x) + fd[i - 1], H * (g[i] - e * x) + gd[i - 1], ScalarInvert(l, e),
        ScalarInvert(l, e));
    }
  }

  /** The final check reads n responses and n - 1 cross terms, modulo l. */
  lemma FinalCheckCong(l: int, m: seq<int>, f: seq<int>, fd: seq<int>, g: seq<int>, gd: seq<int>, e: int, x: int)
    requires l > 2 && 0 < |m| <= |f| && |m| <= |g| && |m| - 1 <= |fd| && |m| - 1 <= |gd|
    requires (forall j :: 0 <= j < |m| ==> Cong(l, f[j], g[j]))
      && (forall j :: 0 <= j < |m| - 1 ==> Cong(l, fd[j], gd[j]))
    requires FinalCheck(l, m, g, gd, e, x)
    ensures FinalCheck(l, m, f, fd, e, x)
  {
    hide Cong, FoldF, Product, Shifted, Eq;
    var i, q := |m| - 1, e * Product(Shifted(m, x));
    var F, H := FoldF(l, f, fd, e, x, i), FoldF(l, g, gd, e, x, i);
    FoldFCong(l, f, fd, g, gd, e, x, i);
    if Cong(l, H, q) { CongTrans(l, F, H, q); }
  }

  /** The part of the openings the final check reads. */
  function Cut(o: Openings, n: nat): (r: Openings)
    requires n <= |o.a| == |o.d| == |o.b| == |o.D|
    ensures |r.a| == |r.d| == |r.b| == |r.D| == n
  {
    Openings(o.a[..n], o.d[..n], o.b[..n], o.D[..n])
  }

  lemma ContinuedIsAccepted(l: int, m: seq<int>, s: Secrets, r: Answer, x: int)
    requires l > 2 && 0 < |m| <= |s.o.a| == |s.o.d| == |s.o.b| == |s.o.D| == |r.f| == |r.fDelta|
    requires Continues(l, s, r) && FinalCheck(l, m, r.f, r.fDelta, r.e, x)
    ensures AcceptedAt(l, Cut(s.o, |m|), m, x, r.e)
  {
    hide Cong, FinalCheck, SameResidues;
    var (f, fd) := Responses(s.o, r.e);
    var (g, gd) := Responses(Cut(s.o, |m|), r.e);
    SameResiduesCong(l, f, r.f);
    SameResiduesCong(l, fd, r.fDelta);
    FinalCheckCong(l, m, g, gd, r.f, r.fDelta, r.e, x);
  }

  /** A branch without a clash: the products agree at its x. */
  lemma BranchAgrees<G(!new), C>(pp: Params<G, C>, m: seq<int>, c: G, b: Branch<G>, s: Secrets)
    requires ValidParams(pp) && 0 < |m| <= |pp.f| && CorrectBranch(pp, m, c, b) && Sizes(|pp.f|, b.answers)
    requires |s.o.a| == |s.o.d| == |s.o.b| == |s.o.D| == |pp.f|
    requires forall j :: 0 <= j < |b.answers| ==> Continues(pp.l, s, b.answers[j])
    ensures AgreeAt(pp.l, s.o.a[..|m|], m, b.x)
  {
    var l, n := pp.l, |m|;
    assert IsPrime(l) && l > 2;
    hide ValidParams, IsPrime, Cong, AgreeAt, AcceptedAt, Continues, FinalCheck, Opens;
    var es := seq(|b.answers|, i requires 0 <= i < |b.answers| => b.answers[i].e);
    forall i | 0 <= i < |es| ensures !Cong(l, es[i], 0) && AcceptedAt(l, Cut(s.o, n), m, b.x, es[i]) {
      CorrectAnswer(pp, m, c, b, i);
      ContinuedIsAccepted(l, m, s, b.answers[i], b.x);
    }
    assert Distinct(l, es) && |es| > n;
    hide CorrectBranch;
    if !AgreeAt(l, s.o.a[..n], m, b.x) {
      FewChallengesAccepted(l, Cut(s.o, n), m, b.x, es);
    }
  }

  lemma {:induction false} ProductCong(l: int, a: seq<int>, b: seq<int>, x: int)
    requires CongVec(l, a, b)
    ensures Cong(l, Product(Shifted(a, x)), Product(Shifted(b, x)))
  {
    if a == [] {
      assert Shifted(a, x) == Shifted(b, x);
      CongRefl(l, Product(Shifted(a, x)));
    } else {
      ProductCong(l, a[1..], b[1..], x);
      ShuffleSoundness.ProductCons(a, x);
      ShuffleSoundness.ProductCons(b, x);
      hide Cong, Product, Shifted;
      CongBy(l, a[0] - x, b[0] - x, a[0], b[0], 1);
      CongMul(l, a[0] - x, b[0] - x, Product(Shifted(a[1..], x)), Product(Shifted(b[1..], x)));
    }
  }

  /** Agreement carries over between openings with the same residues. */
  lemma AgreementTransfers(l: int, n: nat, a: seq<int>, b: seq<int>, m: seq<int>, x: int)
    requires l > 0 && n <= |a| == |b| && SameResidues(l, a, b) && AgreeAt(l, b[..n], m, x)
    ensures AgreeAt(l, a[..n], m, x)
  {
    SameResiduesCong(l, a, b);
    hide Cong, SameResidues, Product;
    ProductCong(l, a[..n], b[..n], x);
    CongTrans(l, Product(Shifted(a[..n], x)), Product(Shifted(b[..n], x)), Product(Shifted(m, x)));
  }

  // ---------- the main result ----------

  /** What the extractor owes: an opening of c whose first |m| entries are a rearrangement of
      m, or two openings of one commitment. */
  ghost predicate Extracted<G, C>(pp: Params<G, C>, m: seq<int>, c: G, x: Extraction)
    requires pp.l > 0
  {
    match x
    case Opening(a, r) => |a| == |pp.f| >= |m| && Opens(pp, c, a, r) && Rearranged(pp.l, a[..|m|], m)
    case Clash(_, _, _, _) => IsClash(pp, x)
  }

  ghost predicate TreeSizes<G>(n: nat, bs: seq<Branch<G>>) {
    bs != [] && forall i :: 0 <= i < |bs| ==> Sizes(n, bs[i].answers)
  }

  /** The search step at branch k. */
  lemma BranchStep<G(!new), C>(pp: Params<G, C>, m: seq<int>, c: G, bs: seq<Branch<G>>, k: nat)
    requires ValidParams(pp) && 0 < |m| <= |pp.f| && CorrectTree(pp, m, c, bs) && TreeSizes(|pp.f|, bs) && k < |bs|
    ensures var first := BranchSecrets(pp.l, |pp.f|, bs[0].answers);
      var s := BranchSecrets(pp.l, |pp.f|, bs[k].answers);
      var x := BranchClash(pp.l, |pp.f|, s, bs[k].answers, 0);
      && (x.Some? ==> IsClash(pp, x.value))
      && (x.None? && !SameResidues(pp.l, first.o.a, s.o.a) ==> IsClash(pp, Clash(first.o.a, first.ra, s.o.a, s.ra)))
      && (x.None? && SameResidues(pp.l, first.o.a, s.o.a) ==> AgreeAt(pp.l, first.o.a[..|m|], m, bs[k].x))
  {
    hide IsGroup, IsPrime, Cong, CorrectBranch, BranchClash, BranchSecrets, Opens, AgreeAt, SameResidues, IsClash,
      Continues, ExpandAt, CodecAt, AllOrder;
    var l, n := pp.l, |pp.f|;
    var first, s := BranchSecrets(l, n, bs[0].answers), BranchSecrets(l, n, bs[k].answers);
    BranchOpens(pp, m, c, bs[0]);
    BranchOpens(pp, m, c, bs[k]);
    BranchClashIsClash(pp, m, c, bs[k], s, 0);
    ClashIsClash(pp, c, first.o.a, first.ra, s.o.a, s.ra);
    if BranchClash(l, n, s, bs[k].answers, 0).None? {
      BranchAgrees(pp, m, c, bs[k], s);
      if SameResidues(l, first.o.a, s.o.a) {
        AgreementTransfers(l, |m|, first.o.a, s.o.a, m, bs[k].x);
      }
    }
  }

  lemma {:induction false} ExtractFrom<G(!new), C>(pp: Params<G, C>, m: seq<int>, c: G, bs: seq<Branch<G>>, k: nat)
    requires ValidParams(pp) && 0 < |m| <= |pp.f| && CorrectTree(pp, m, c, bs) && TreeSizes(|pp.f|, bs) && k <= |bs|
    requires var first := BranchSecrets(pp.l, |pp.f|, bs[0].answers);
      forall j :: 0 <= j < k ==> AgreeAt(pp.l, first.o.a[..|m|], m, bs[j].x)
    ensures Extracted(pp, m, c, Extract(pp.l, |pp.f|, bs, k))
    decreases |bs| - k
  {
    hide ValidParams, IsPrime, Cong, CorrectBranch, BranchClash, BranchSecrets, Opens, AgreeAt, SameResidues, IsClash,
      Rearranged;
    assert pp.l > 2 by { OrderAboveTwo(pp); }
    var first := BranchSecrets(pp.l, |pp.f|, bs[0].answers);
    if k == |bs| {
      BranchOpens(pp, m, c, bs[0]);
      var xs := seq(|bs|, i requires 0 <= i < |bs| => bs[i].x);
      assert AgreeAtAll(pp.l, first.o.a[..|m|], m, xs) && Distinct(pp.l, xs);
      assert IsPrime(pp.l) by { OrderIsPrime(pp); }
      AgreementMeansRearranged(pp.l, first.o.a[..|m|], m, xs);
    } else {
      BranchStep(pp, m, c, bs, k);
      var s := BranchSecrets(pp.l, |pp.f|, bs[k].answers);
      if BranchClash(pp.l, |pp.f|, s, bs[k].answers, 0).None? && SameResidues(pp.l, first.o.a, s.o.a) {
        ExtractFrom(pp, m, c, bs, k + 1);
      } else {
        ClashIsExtracted(pp, m, c, Extract(pp.l, |pp.f|, bs, k));
      }
    }
  }

  lemma ClashIsExtracted<G, C>(pp: Params<G, C>, m: seq<int>, c: G, x: Extraction)
    requires pp.l > 0 && IsClash(pp, x)
    ensures Extracted(pp, m, c, x)
  {
    hide Cong, Com;
  }

  lemma OrderIsPrime<G(!new), C>(pp: Params<G, C>)
    requires ValidParams(pp)
    ensures IsPrime(pp.l)
  {
  }

  /** Soundness of the argument: from a tree of accepted transcripts the extractor computes an
      opening to a rearrangement, or breaks the binding of the commitment. */
  lemma ExtractionIsSound<G(!new), C>(pp: Params<G, C>, m: seq<int>, c: G, bs: seq<Branch<G>>)
    requires ValidParams(pp) && 0 < |m| <= |pp.f| && CorrectTree(pp, m, c, bs)
    ensures TreeSizes(|pp.f|, bs) && Extracted(pp, m, c, Extract(pp.l, |pp.f|, bs, 0))
  {
    hide ValidParams, Cong, CorrectBranch, Opens, Extract, Extracted;
    assert pp.l > 2 by { OrderAboveTwo(pp); }
    forall i | 0 <= i < |bs| ensures Sizes(|pp.f|, bs[i].answers) {
      BranchOpens(pp, m, c, bs[i]);
    }
    ExtractFrom(pp, m, c, bs, 0);
  }
}
