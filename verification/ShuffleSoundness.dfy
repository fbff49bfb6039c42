/** Soundness of the known-content shuffle argument (src/aok.rs): responses that open fixed
    committed vectors pass the final check for few challenges unless the committed vector is a
    rearrangement of the known one. */
module ShuffleSoundness {
  import opened Arith
  import opened Fermat
  import opened Groups
  import opened Polynomials
  import opened ShuffleArgument

  // ---------- the product as a polynomial in x ----------

  lemma ProductCons(s: seq<int>, x: int)
    requires s != []
    ensures Product(Shifted(s, x)) == (s[0] - x) * Product(Shifted(s[1..], x))
  {
    assert Shifted(s, x)[1..] == Shifted(s[1..], x);
  }

  /** The coefficients of the product of the s_i - t. */
  function ProdPoly(s: seq<int>): (r: seq<int>)
    ensures |r| == |s| + 1
  {
    if s == [] then [1] else MulLinear(ProdPoly(s[1..]), s[0], -1)
  }

  lemma {:induction false} ProdPolyEval(s: seq<int>, x: int)
    ensures Eval(ProdPoly(s), x) == Product(Shifted(s, x))
    ensures Last(ProdPoly(s)) == Pow(-1, |s|)
  {
    if s == [] {
      assert [1][1..] == [] && Eval([1], x) == 1;
      assert Shifted(s, x) == [];
    } else {
      ProdPolyEval(s[1..], x);
      EvalMulLinear(ProdPoly(s[1..]), s[0], -1, x);
      ProductCons(s, x);
      hide Product, ProdPoly, MulLinear;
      assert s[0] + -1 * x == s[0] - x;
    }
  }

  /** The difference of two such products of the same length, one degree lower. */
  function DiffPoly(a: seq<int>, m: seq<int>): (r: seq<int>)
    requires |a| == |m|
    ensures |r| == |a|
  {
    AddPoly(ProdPoly(a), ScalePoly(-1, ProdPoly(m)))[..|a|]
  }

  lemma DiffPolyEval(a: seq<int>, m: seq<int>, x: int)
    requires |a| == |m|
    ensures Eval(DiffPoly(a, m), x) == Product(Shifted(a, x)) - Product(Shifted(m, x))
  {
    hide Product, Shifted, ProdPoly;
    var d := AddPoly(ProdPoly(a), ScalePoly(-1, ProdPoly(m)));
    ProdPolyEval(a, x);
    ProdPolyEval(m, x);
    EvalAdd(ProdPoly(a), ScalePoly(-1, ProdPoly(m)), x);
    EvalScale(-1, ProdPoly(m), x);
    EvalSnoc(d, x);
    assert Last(d) == 0;
  }

  /** The two products agree at x. */
  ghost predicate AgreeAt(l: int, a: seq<int>, m: seq<int>, x: int) {
    Cong(l, Product(Shifted(a, x)), Product(Shifted(m, x)))
  }

  ghost predicate AgreeAtAll(l: int, a: seq<int>, m: seq<int>, xs: seq<int>) {
    forall i :: 0 <= i < |xs| ==> AgreeAt(l, a, m, xs[i])
  }

  /** The same residues with the same multiplicities. */
  ghost predicate Rearranged(l: int, a: seq<int>, m: seq<int>)
    requires l > 0
  {
    multiset(CanonVec(l, a)) == multiset(CanonVec(l, m))
  }

  /** Agreement at as many points as there are factors is agreement everywhere. */
  lemma AgreeEverywhere(l: int, a: seq<int>, m: seq<int>, xs: seq<int>, x: int)
    requires IsPrime(l) && |a| == |m| <= |xs| && Distinct(l, xs) && AgreeAtAll(l, a, m, xs)
    ensures AgreeAt(l, a, m, x)
  {
    hide IsPrime, Cong, Product, Shifted, DiffPoly, Eval;
    var d := DiffPoly(a, m);
    forall i | 0 <= i < |xs| ensures Cong(l, Eval(d, xs[i]), 0) {
      DiffPolyEval(a, m, xs[i]);
      assert AgreeAt(l, a, m, xs[i]);
      CongBy(l, Eval(d, xs[i]), 0, Product(Shifted(a, xs[i])), Product(Shifted(m, xs[i])), 1);
    }
    VanishesEverywhere(l, d, xs, x);
    DiffPolyEval(a, m, x);
    CongBy(l, Product(Shifted(a, x)), Product(Shifted(m, x)), Eval(d, x), 0, 1);
  }

  lemma {:induction false} VanishingFactor(l: int, m: seq<int>, x: int) returns (j: nat)
    requires IsPrime(l) && Cong(l, Product(Shifted(m, x)), 0)
    ensures j < |m| && Cong(l, m[j], x)
    decreases |m|
  {
    if m == [] {
      assert Shifted(m, x) == [];
      SmallIsNonzero(l, 1);
      assert false;
    } else {
      ProductCons(m, x);
      hide IsPrime, Cong, Product, Shifted;
      NoZeroDivisors(l, m[0] - x, Product(Shifted(m[1..], x)));
      if Cong(l, m[0] - x, 0) {
        CongBy(l, m[0], x, m[0] - x, 0, 1);
        j := 0;
      } else {
        var k := VanishingFactor(l, m[1..], x);
        j := k + 1;
      }
    }
  }

  function Without1(s: seq<int>, j: nat): (r: seq<int>)
    requires j < |s|
    ensures |r| == |s| - 1
  {
    s[..j] + s[j + 1..]
  }

  lemma {:induction false} ProductWithout(s: seq<int>, j: nat, x: int)
    requires j < |s|
    ensures Product(Shifted(s, x)) == (s[j] - x) * Product(Shifted(Without1(s, j), x))
    decreases j
  {
    ProductCons(s, x);
    if j == 0 {
      assert Without1(s, 0) == s[1..];
    } else {
      var w := Without1(s, j);
      ProductWithout(s[1..], j - 1, x);
      assert w[1..] == Without1(s[1..], j - 1) && w[0] == s[0];
      ProductCons(w, x);
      hide Product, Shifted;
      SwapFactors(s[0] - x, s[j] - x, Product(Shifted(w[1..], x)));
    }
  }

  lemma SwapFactors(a: int, b: int, c: int)
    ensures a * (b * c) == b * (a * c)
  {
  }

  lemma CanonWithout(l: int, s: seq<int>, j: nat)
    requires l > 0 && j < |s|
    ensures multiset(CanonVec(l, s)) == multiset(CanonVec(l, Without1(s, j))) + multiset{Canonical(l, s[j])}
  {
    var c := CanonVec(l, s);
    assert CanonVec(l, Without1(s, j)) == c[..j] + c[j + 1..];
    assert c == c[..j] + [c[j]] + c[j + 1..];
  }

  /** Removing a common factor keeps agreement away from it. */
  lemma AgreeWithout(l: int, a: seq<int>, m: seq<int>, j: nat, x: int)
    requires IsPrime(l) && a != [] && j < |m| && Cong(l, m[j], a[0]) && !Cong(l, x, a[0]) && AgreeAt(l, a, m, x)
    ensures AgreeAt(l, a[1..], Without1(m, j), x)
  {
    ProductCons(a, x);
    ProductWithout(m, j, x);
    hide IsPrime, Cong, Product, Shifted, Without1;
    var u, P, Q := a[0] - x, Product(Shifted(a[1..], x)), Product(Shifted(Without1(m, j), x));
    CongBy(l, m[j] - x, u, m[j], a[0], 1);
    CongRefl(l, Q);
    CongMul(l, m[j] - x, u, Q, Q);
    CongTrans(l, u * P, (m[j] - x) * Q, u * Q);
    if Cong(l, u, 0) { CongBy(l, x, a[0], u, 0, -1); }
    Cancel(l, u, P, Q);
  }

  /** The points other than y, at most one fewer. */
  lemma DropPoint(l: int, xs: seq<int>, y: int) returns (ys: seq<int>)
    requires l > 0 && Distinct(l, xs)
    ensures |ys| >= |xs| - 1 && Distinct(l, ys)
    ensures forall i :: 0 <= i < |ys| ==> ys[i] in xs && !Cong(l, ys[i], y)
  {
    if i :| 0 <= i < |xs| && Cong(l, xs[i], y) {
      ys := xs[..i] + xs[i + 1..];
      forall k | 0 <= k < |ys| ensures !Cong(l, ys[k], y) {
        var k' := if k < i then k else k + 1;
        assert ys[k] == xs[k'];
        if Cong(l, xs[k'], y) {
          CongSym(l, xs[i], y);
          CongSym(l, xs[k'], y);
          CongTrans(l, xs[k'], y, xs[i]);
          CongTrans(l, xs[i], y, xs[k']);
        }
      }
    } else {
      ys := xs;
    }
  }

  /** Products that agree at n different points have the same factors. */
  lemma {:induction false} AgreementMeansRearranged(l: int, a: seq<int>, m: seq<int>, xs: seq<int>)
    requires IsPrime(l) && |a| == |m| <= |xs| && Distinct(l, xs) && AgreeAtAll(l, a, m, xs)
    ensures l > 0 && Rearranged(l, a, m)
    decreases |a|
  {
    if a == [] {
      assert CanonVec(l, a) == CanonVec(l, m);
    } else {
      AgreeEverywhere(l, a, m, xs, a[0]);
      ProductCons(a, a[0]);
      hide IsPrime, Cong, Product, Shifted;
      var P := Product(Shifted(m, a[0]));
      assert Product(Shifted(a, a[0])) == 0;
      CongSym(l, 0, P);
      var j := VanishingFactor(l, m, a[0]);
      var ys := DropPoint(l, xs, a[0]);
      forall i | 0 <= i < |ys| ensures AgreeAt(l, a[1..], Without1(m, j), ys[i]) {
        AgreeWithout(l, a, m, j, ys[i]);
      }
      AgreementMeansRearranged(l, a[1..], Without1(m, j), ys);
      CanonWithout(l, a, 0);
      CanonWithout(l, m, j);
      assert Without1(a, 0) == a[1..];
      CongIffCanonical(l, m[j], a[0]);
    }
  }

  /** Conversely, rearrangements agree everywhere. */
  lemma {:induction false} RearrangedAgrees(l: int, a: seq<int>, m: seq<int>, x: int)
    requires l > 0 && |a| == |m| && Rearranged(l, a, m)
    ensures AgreeAt(l, a, m, x)
    decreases |a|
  {
    if a == [] {
      assert Shifted(a, x) == Shifted(m, x);
      CongRefl(l, Product(Shifted(a, x)));
    } else {
      hide Cong, Rearranged, AgreeAt, Canonical;
      var j := SameResidueIn(l, a, m);
      RearrangedTail(l, a, m, j);
      RearrangedAgrees(l, a[1..], Without1(m, j), x);
      AgreeWith(l, a, m, j, x);
    }
  }

  lemma RearrangedTail(l: int, a: seq<int>, m: seq<int>, j: nat)
    requires l > 0 && a != [] && j < |m| && Rearranged(l, a, m) && Canonical(l, m[j]) == Canonical(l, a[0])
    ensures Rearranged(l, a[1..], Without1(m, j))
  {
    hide Canonical;
    CanonWithout(l, a, 0);
    CanonWithout(l, m, j);
    assert Without1(a, 0) == a[1..];
    hide CanonVec, Without1;
    SameRest(multiset(CanonVec(l, a[1..])), multiset(CanonVec(l, Without1(m, j))), Canonical(l, a[0]));
  }

  lemma SameRest(A: multiset<int>, B: multiset<int>, c: int)
    requires A + multiset{c} == B + multiset{c}
    ensures A == B
  {
    assert A == A + multiset{c} - multiset{c} && B == B + multiset{c} - multiset{c};
  }

  lemma AgreeWith(l: int, a: seq<int>, m: seq<int>, j: nat, x: int)
    requires a != [] && j < |m| && Cong(l, a[0], m[j]) && AgreeAt(l, a[1..], Without1(m, j), x)
    ensures AgreeAt(l, a, m, x)
  {
    ProductCons(a, x);
    ProductWithout(m, j, x);
    hide Cong, Product, Shifted, Without1;
    CongBy(l, a[0] - x, m[j] - x, a[0], m[j], 1);
    CongMul(l, a[0] - x, m[j] - x, Product(Shifted(a[1..], x)), Product(Shifted(Without1(m, j), x)));
  }

  lemma SameResidueIn(l: int, a: seq<int>, m: seq<int>) returns (j: nat)
    requires l > 0 && a != [] && Rearranged(l, a, m)
    ensures j < |m| && Cong(l, a[0], m[j]) && Canonical(l, m[j]) == Canonical(l, a[0])
  {
    assert CanonVec(l, a)[0] in multiset(CanonVec(l, m));
    j :| 0 <= j < |m| && CanonVec(l, m)[j] == CanonVec(l, a)[0];
    CongIffCanonical(l, a[0], m[j]);
  }

  /** The products agree at n different points exactly for rearrangements. */
  lemma AgreeIffRearranged(l: int, a: seq<int>, m: seq<int>, xs: seq<int>)
    requires IsPrime(l) && |a| == |m| <= |xs| && Distinct(l, xs)
    ensures l > 0 && (AgreeAtAll(l, a, m, xs) <==> Rearranged(l, a, m))
  {
    assert l > 0;
    hide IsPrime, Cong, Rearranged, AgreeAt;
    if AgreeAtAll(l, a, m, xs) { AgreementMeansRearranged(l, a, m, xs); }
    if Rearranged(l, a, m) {
      forall i | 0 <= i < |xs| ensures AgreeAt(l, a, m, xs[i]) { RearrangedAgrees(l, a, m, xs[i]); }
    }
  }

  // ---------- the final check as a polynomial in e ----------

  /** The vectors behind the two commitments: f = e a + d and fDelta = e b + D. */
  datatype Openings = Openings(a: seq<int>, d: seq<int>, b: seq<int>, D: seq<int>)

  ghost predicate Sized(o: Openings, n: nat) {
    |o.a| == |o.d| == |o.b| == |o.D| == n
  }

  function Responses(o: Openings, e: int): (r: (seq<int>, seq<int>))
    requires |o.a| == |o.d| && |o.b| == |o.D|
    ensures |r.0| == |o.a| && |r.1| == |o.b|
  {
    (AddVec(ScaleVec(e, o.a), o.d), AddVec(ScaleVec(e, o.b), o.D))
  }

  /** e^i F_i as a polynomial in e. */
  function FoldPoly(o: Openings, x: int, i: nat): (r: seq<int>)
    requires i < |o.a| == |o.d| == |o.b| == |o.D|
    ensures |r| == i + 2
  {
    if i == 0 then [o.d[0], o.a[0] - x]
    else AddPoly(MulLinear(FoldPoly(o, x, i - 1), o.d[i], o.a[i] - x), ZeroPoly(i - 1) + [o.D[i - 1], o.b[i - 1]] + [0])
  }

  /** Its leading coefficient is the product of the a_j - x. */
  lemma {:induction false} FoldPolyLast(o: Openings, x: int, i: nat)
    requires Sized(o, |o.a|) && i < |o.a|
    ensures Last(FoldPoly(o, x, i)) == Product(Shifted(o.a[..i + 1], x))
  {
    hide Product, Shifted, Last, MulLinear, Without1, ZeroPoly;
    ProductSnoc(o.a, i, x);
    if i == 0 {
      LastOfPair(o.d[0], o.a[0] - x);
    } else {
      hide FoldPoly;
      FoldPolyLast(o, x, i - 1);
      FoldPolyLastStep(o, x, i);
    }
  }

  lemma LastOfPair(u: int, v: int)
    ensures Last([u, v]) == v
  {
  }

  /** One more factor. */
  lemma ProductSnoc(a: seq<int>, i: nat, x: int)
    requires i < |a|
    ensures Product(Shifted(a[..i + 1], x)) == (a[i] - x) * Product(Shifted(a[..i], x))
    ensures i == 0 ==> Product(Shifted(a[..i + 1], x)) == a[0] - x
  {
    ProductWithout(a[..i + 1], i, x);
    assert Without1(a[..i + 1], i) == a[..i];
    if i == 0 {
      assert Shifted(a[..0], x) == [];
    }
  }

  lemma FoldPolyLastStep(o: Openings, x: int, i: nat)
    requires Sized(o, |o.a|) && 0 < i < |o.a|
    ensures Last(FoldPoly(o, x, i)) == (o.a[i] - x) * Last(FoldPoly(o, x, i - 1))
  {
    hide MulLinear, Eval, ZeroPoly;
    FoldPolyUnfolds(o, x, i);
    hide FoldPoly;
    var c := MulLinear(FoldPoly(o, x, i - 1), o.d[i], o.a[i] - x);
    EvalMulLinear(FoldPoly(o, x, i - 1), o.d[i], o.a[i] - x, 0);
    LastOfSum(c, ZeroPoly(i - 1) + [o.D[i - 1], o.b[i - 1]]);
  }

  lemma LastOfSum(c: seq<int>, t: seq<int>)
    requires |c| == |t| + 1
    ensures Last(AddPoly(c, t + [0])) == Last(c)
  {
  }

  lemma FoldPolyNext(o: Openings, x: int, i: nat, e: int)
    requires Sized(o, |o.a|) && 0 < i < |o.a|
    ensures Eval(FoldPoly(o, x, i), e)
         == (o.d[i] + (o.a[i] - x) * e) * Eval(FoldPoly(o, x, i - 1), e) + Pow(e, i - 1) * (o.D[i - 1] + o.b[i - 1] * e)
  {
    hide Eval, Pow, MulLinear, ZeroPoly;
    FoldPolyUnfolds(o, x, i);
    var g, t := FoldPoly(o, x, i - 1), [o.D[i - 1], o.b[i - 1]];
    hide FoldPoly;
    EvalMulLinear(g, o.d[i], o.a[i] - x, e);
    EvalAdd(MulLinear(g, o.d[i], o.a[i] - x), ZeroPoly(i - 1) + t + [0], e);
    ShiftedPair(i - 1, o.D[i - 1], o.b[i - 1], e);
  }

  lemma FoldPolyUnfolds(o: Openings, x: int, i: nat)
    requires Sized(o, |o.a|) && 0 < i < |o.a|
    ensures |FoldPoly(o, x, i - 1)| == i + 1
    ensures FoldPoly(o, x, i)
         == AddPoly(MulLinear(FoldPoly(o, x, i - 1), o.d[i], o.a[i] - x),
           ZeroPoly(i - 1) + [o.D[i - 1], o.b[i - 1]] + [0])
  {
    hide Eval, Pow, MulLinear, ZeroPoly, AddPoly;
  }

  lemma ShiftedPair(k: nat, u: int, v: int, e: int)
    ensures Eval(ZeroPoly(k) + [u, v] + [0], e) == Pow(e, k) * (u + v * e)
  {
    EvalPad(ZeroPoly(k) + [u, v], e);
    EvalShift(k, [u, v], e);
    EvalPair(u, v, e);
  }

  lemma EvalPair(u: int, v: int, e: int)
    ensures Eval([u, v], e) == u + v * e
  {
    assert [u, v][1..] == [v] && [v][1..] == [] && Eval([], e) == 0;
    assert Eval([v], e) == v;
    assert e * v == v * e;
  }

  lemma ResponseEntry(o: Openings, x: int, e: int, i: nat)
    requires Sized(o, |o.a|) && i < |o.a|
    ensures var (f, fDelta) := Responses(o, e);
      f[i] - e * x == o.d[i] + (o.a[i] - x) * e && (i > 0 ==> fDelta[i - 1] == o.D[i - 1] + o.b[i - 1] * e)
  {
    var (f, fDelta) := Responses(o, e);
    assert f[i] == e * o.a[i] + o.d[i];
    assert (o.a[i] - x) * e == e * o.a[i] - e * x;
    if i > 0 { assert fDelta[i - 1] == e * o.b[i - 1] + o.D[i - 1]; }
  }

  /** For a nonzero challenge the polynomial is e^i times the verifier's F_i. */
  lemma {:induction false} FoldPolyIsFold(l: int, o: Openings, x: int, e: int, i: nat)
    requires IsPrime(l) && l > 2 && Sized(o, |o.a|) && i < |o.a| && !Cong(l, e, 0)
    ensures Cong(l, Eval(FoldPoly(o, x, i), e), Pow(e, i) * FoldAt(l, o, x, e, i))
    decreases i
  {
    hide Cong, IsPrime, FoldPoly, Eval, Pow, FoldAt;
    if i == 0 {
      FoldPolyStart(l, o, x, e);
    } else {
      FoldPolyIsFold(l, o, x, e, i - 1);
      FoldPolyStep(l, o, x, e, i);
    }
  }

  lemma FoldPolyStart(l: int, o: Openings, x: int, e: int)
    requires l > 2 && Sized(o, |o.a|) && 0 < |o.a|
    ensures Cong(l, Eval(FoldPoly(o, x, 0), e), Pow(e, 0) * FoldAt(l, o, x, e, 0))
  {
    ResponseEntry(o, x, e, 0);
    EvalPair(o.d[0], o.a[0] - x, e);
    PowStep(e, 0);
    CongRefl(l, Eval(FoldPoly(o, x, 0), e));
  }

  lemma FoldPolyStep(l: int, o: Openings, x: int, e: int, i: nat)
    requires IsPrime(l) && l > 2 && Sized(o, |o.a|) && 0 < i < |o.a| && !Cong(l, e, 0)
    requires Cong(l, Eval(FoldPoly(o, x, i - 1), e), Pow(e, i - 1) * FoldAt(l, o, x, e, i - 1))
    ensures Cong(l, Eval(FoldPoly(o, x, i), e), Pow(e, i) * FoldAt(l, o, x, e, i))
  {
    hide Cong, IsPrime, FoldPoly, Eval, Pow, FoldAt, ScalarInvert;
    FoldPolyNext(o, x, i, e);
    FoldAtNext(l, o, x, e, i);
    InverseOfChallenge(l, e);
    PowStep(e, i - 1);
    FoldDivision(l, e, ScalarInvert(l, e), Pow(e, i - 1), FoldAt(l, o, x, e, i - 1), o.d[i] + (o.a[i] - x) * e,
                 o.D[i - 1] + o.b[i - 1] * e, Eval(FoldPoly(o, x, i - 1), e));
  }

  /** The verifier's F_i on the responses. */
  function FoldAt(l: int, o: Openings, x: int, e: int, i: nat): int
    requires l > 2 && i < |o.a| == |o.d| == |o.b| == |o.D|
  {
    FoldF(l, Responses(o, e).0, Responses(o, e).1, e, x, i)
  }

  lemma FoldAtNext(l: int, o: Openings, x: int, e: int, i: nat)
    requires l > 2 && Sized(o, |o.a|) && 0 < i < |o.a|
    ensures FoldAt(l, o, x, e, i)
         == (FoldAt(l, o, x, e, i - 1) * (o.d[i] + (o.a[i] - x) * e)
             + (o.D[i - 1] + o.b[i - 1] * e)) * ScalarInvert(l, e)
  {
    hide FoldF, ScalarInvert, Responses;
    ResponseEntry(o, x, e, i);
    FoldFNext(l, Responses(o, e).0, Responses(o, e).1, e, x, i);
  }

  lemma PowStep(e: int, i: nat)
    ensures Pow(e, 0) == 1 && Pow(e, i + 1) == e * Pow(e, i)
  {
  }

  lemma InverseOfChallenge(l: int, e: int)
    requires IsPrime(l) && l > 2 && !Cong(l, e, 0)
    ensures Cong(l, e * ScalarInvert(l, e), 1)
  {
    FermatInverse(l, e);
  }

  /** e^i (F u + k) / e = u G + e^(i-1) k when G = e^(i-1) F. */
  lemma FoldDivision(l: int, e: int, w: int, t: int, F: int, u: int, k: int, G: int)
    requires Cong(l, e * w, 1) && Cong(l, G, t * F)
    ensures Cong(l, u * G + t * k, (e * t) * ((F * u + k) * w))
  {
    hide Cong;
    var s := F * u + k;
    assert (e * t) * (s * w) == (e * w) * (t * s) by { MulSwap(e, t, w, s); assert s * w == w * s; }
    assert t * s == u * (t * F) + t * k by { assert t * (F * u) == u * (t * F); }
    CongSym(l, e * w, 1);
    CongBy2(l, u * G + t * k, (e * w) * (t * s), G, t * F, u, 1, e * w, t * s);
  }

  /** e^n times the final comparison: its leading coefficient is the difference of products. */
  function FinalPoly(o: Openings, x: int, q: int): (r: seq<int>)
    requires 0 < |o.a| == |o.d| == |o.b| == |o.D|
    ensures |r| == |o.a| + 1
  {
    AddPoly(FoldPoly(o, x, |o.a| - 1), ZeroPoly(|o.a|) + [-q])
  }

  lemma FinalPolyEval(o: Openings, x: int, q: int, e: int)
    requires 0 < |o.a| && Sized(o, |o.a|)
    ensures Eval(FinalPoly(o, x, q), e) == Eval(FoldPoly(o, x, |o.a| - 1), e) - Pow(e, |o.a|) * q
    ensures Last(FinalPoly(o, x, q)) == Product(Shifted(o.a, x)) - q
  {
    var n := |o.a|;
    EvalAdd(FoldPoly(o, x, n - 1), ZeroPoly(n) + [-q], e);
    EvalShift(n, [-q], e);
    assert [-q][1..] == [] && Eval([-q], e) == -q;
    FoldPolyLast(o, x, n - 1);
    assert o.a[..n] == o.a;
    hide Eval, FoldPoly, Product;
    assert Pow(e, n) * -q == -(Pow(e, n) * q);
  }

  /** The responses that open o pass the final check against m. */
  ghost predicate AcceptedAt(l: int, o: Openings, m: seq<int>, x: int, e: int)
    requires l > 2 && 0 < |o.a| == |m| && Sized(o, |o.a|)
  {
    var (f, fDelta) := Responses(o, e);
    FinalCheck(l, m, f, fDelta, e, x)
  }

  lemma AcceptedIsRoot(l: int, o: Openings, m: seq<int>, x: int, e: int)
    requires IsPrime(l) && l > 2 && 0 < |o.a| == |m| && Sized(o, |o.a|) && !Cong(l, e, 0) && AcceptedAt(l, o, m, x, e)
    ensures Cong(l, Eval(FinalPoly(o, x, Product(Shifted(m, x))), e), 0)
  {
    hide Cong, IsPrime, Eval, FoldF, FoldPoly, FinalPoly, Product, Shifted, Responses, Eq;
    var n, q := |o.a|, Product(Shifted(m, x));
    var (f, fDelta) := Responses(o, e);
    FoldPolyIsFold(l, o, x, e, n - 1);
    FinalPolyEval(o, x, q, e);
    PowStep(e, n - 1);
    hide Pow;
    ComparisonAlgebra(l, e, Pow(e, n - 1), q, FoldF(l, f, fDelta, e, x, n - 1), Eval(FoldPoly(o, x, n - 1), e));
  }

  lemma ComparisonAlgebra(l: int, e: int, t: int, q: int, F: int, g: int)
    requires Cong(l, g, t * F) && Cong(l, F, e * q)
    ensures Cong(l, g - (e * t) * q, 0)
  {
    hide Cong;
    assert (e * t) * q == t * (e * q) by { MulSwap(e, t, q, 1); }
    CongBy2(l, g - (e * t) * q, 0, g, t * F, 1, F, e * q, t);
  }

  /** If the products differ at x, at most n nonzero challenges are accepted. */
  lemma FewChallengesAccepted(l: int, o: Openings, m: seq<int>, x: int, es: seq<int>)
    requires IsPrime(l) && l > 2 && 0 < |o.a| == |m| && Sized(o, |o.a|) && Distinct(l, es)
    requires forall i :: 0 <= i < |es| ==> !Cong(l, es[i], 0) && AcceptedAt(l, o, m, x, es[i])
    requires !AgreeAt(l, o.a, m, x)
    ensures |es| <= |m|
  {
    if |es| > |m| {
      hide Cong, IsPrime, Eval, FinalPoly, AcceptedAt, Product, Shifted;
      var q := Product(Shifted(m, x));
      var c := FinalPoly(o, x, q);
      forall i | 0 <= i < |es| ensures Cong(l, Eval(c, es[i]), 0) {
        AcceptedIsRoot(l, o, m, x, es[i]);
      }
      LeadingVanishes(l, c, es);
      FinalPolyEval(o, x, q, 0);
      CongBy(l, Product(Shifted(o.a, x)), q, Last(c), 0, 1);
    }
  }

  /** More than n nonzero challenges are accepted at x. */
  ghost predicate OftenAccepted(l: int, o: Openings, m: seq<int>, x: int)
    requires l > 2 && 0 < |o.a| == |m| && Sized(o, |o.a|)
  {
    exists es :: |es| > |m| && Distinct(l, es) && forall i :: 0 <= i < |es| ==>
      !Cong(l, es[i], 0) && AcceptedAt(l, o, m, x, es[i])
  }

  /** Soundness: unless the committed vector is a rearrangement of the known one, more than n
      challenges are accepted at fewer than n values of x. */
  lemma SoundUnlessRearranged(l: int, o: Openings, m: seq<int>, xs: seq<int>)
    requires IsPrime(l) && l > 2 && 0 < |o.a| == |m| && Sized(o, |o.a|) && Distinct(l, xs)
    requires forall i :: 0 <= i < |xs| ==> OftenAccepted(l, o, m, xs[i])
    requires !Rearranged(l, o.a, m)
    ensures |xs| < |m|
  {
    if |xs| >= |m| {
      hide Cong, IsPrime, AcceptedAt, AgreeAt, Rearranged;
      forall i | 0 <= i < |xs| ensures AgreeAt(l, o.a, m, xs[i]) {
        assert OftenAccepted(l, o, m, xs[i]);
        var es :| |es| > |m| && Distinct(l, es) && forall j :: 0 <= j < |es| ==>
          !Cong(l, es[j], 0) && AcceptedAt(l, o, m, xs[i], es[j]);
        if !AgreeAt(l, o.a, m, xs[i]) { FewChallengesAccepted(l, o, m, xs[i], es); }
      }
      AgreementMeansRearranged(l, o.a, m, xs);
    }
  }
}
