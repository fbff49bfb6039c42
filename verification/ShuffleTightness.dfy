/** The bound on accepted challenges of the known-content argument (src/aok.rs) is exact: any n
    challenges are accepted together for suitable committed vectors, whatever the products. */
module ShuffleTightness {
  import opened Arith
  import opened Fermat
  import opened Polynomials
  import opened ShuffleArgument
  import opened ShuffleSoundness

  // ---------- openings for a given polynomial ----------

  /** Both openings agree on what the first i steps read. */
  ghost predicate SamePrefix(o: Openings, o': Openings, i: nat) {
    && i < |o.a| == |o.d| == |o.b| == |o.D| && i < |o'.a| == |o'.d| == |o'.b| == |o'.D|
    && o.a[..i + 1] == o'.a[..i + 1] && o.d[..i + 1] == o'.d[..i + 1]
    && o.b[..i] == o'.b[..i] && o.D[..i] == o'.D[..i]
  }

  lemma {:induction false} FoldPolyPrefix(o: Openings, o': Openings, x: int, i: nat)
    requires SamePrefix(o, o', i)
    ensures FoldPoly(o, x, i) == FoldPoly(o', x, i)
  {
    hide AddPoly, MulLinear, ZeroPoly;
    SameEntries(o, o', i);
    if i > 0 {
      ShorterPrefix(o, o', i);
      FoldPolyPrefix(o, o', x, i - 1);
      FoldPolyUnfolds(o, x, i);
      FoldPolyUnfolds(o', x, i);
      hide FoldPoly;
    }
  }

  lemma SameEntries(o: Openings, o': Openings, i: nat)
    requires SamePrefix(o, o', i)
    ensures o.a[i] == o'.a[i] && o.d[i] == o'.d[i] && (i > 0 ==> o.b[i - 1] == o'.b[i - 1] && o.D[i - 1] == o'.D[i - 1])
  {
    assert o.a[i] == o.a[..i + 1][i] && o'.a[i] == o'.a[..i + 1][i];
    assert o.d[i] == o.d[..i + 1][i] && o'.d[i] == o'.d[..i + 1][i];
    if i > 0 {
      assert o.b[i - 1] == o.b[..i][i - 1] && o'.b[i - 1] == o'.b[..i][i - 1];
      assert o.D[i - 1] == o.D[..i][i - 1] && o'.D[i - 1] == o'.D[..i][i - 1];
    }
  }

  lemma ShorterPrefix(o: Openings, o': Openings, i: nat)
    requires i > 0 && SamePrefix(o, o', i)
    ensures SamePrefix(o, o', i - 1)
  {
    assert o.a[..i] == o.a[..i + 1][..i] && o'.a[..i] == o'.a[..i + 1][..i];
    assert o.d[..i] == o.d[..i + 1][..i] && o'.d[..i] == o'.d[..i + 1][..i];
    assert o.b[..i - 1] == o.b[..i][..i - 1] && o'.b[..i - 1] == o'.b[..i][..i - 1];
    assert o.D[..i - 1] == o.D[..i][..i - 1] && o'.D[..i - 1] == o'.D[..i][..i - 1];
  }

  /** The first k coefficients of t / (1 + u e) as a power series. */
  function Divided(t: seq<int>, u: int, k: nat): (r: seq<int>)
    requires k <= |t|
    ensures |r| == k
  {
    if k == 0 then []
    else var r := Divided(t, u, k - 1); r + [t[k - 1] - (if k == 1 then 0 else u * r[k - 2])]
  }

  lemma {:induction false} DividedAt(t: seq<int>, u: int, k: nat, j: nat)
    requires j < k <= |t|
    ensures Divided(t, u, k)[j] + (if j == 0 then 0 else u * Divided(t, u, k)[j - 1]) == t[j]
  {
    if j < k - 1 {
      DividedAt(t, u, k - 1, j);
    }
  }

  /** The polynomial one step earlier: t without the two coefficients the step is free to set,
      divided by 1 + u e, under the leading coefficient lead. */
  function Earlier(t: seq<int>, u: int, lead: int): (r: seq<int>)
    requires |t| >= 3
    ensures |r| == |t| - 1 && Last(r) == lead
  {
    Divided(t, u, |t| - 3) + [0, lead]
  }

  /** What the step has to add at its two free coefficients. */
  lemma StepReaches(t: seq<int>, u: int, lead: int) returns (D: int, b: int)
    requires |t| >= 3 && Last(t) == u * lead
    ensures AddPoly(MulLinear(Earlier(t, u, lead), 1, u), ZeroPoly(|t| - 3) + [D, b] + [0]) == t
  {
    var k := |t| - 3;
    var g := Earlier(t, u, lead);
    var c := MulLinear(g, 1, u);
    D, b := t[k] - c[k], t[k + 1] - c[k + 1];
    var r := AddPoly(c, ZeroPoly(k) + [D, b] + [0]);
    forall j | 0 <= j < |t| ensures r[j] == t[j] {
      if j < k {
        DividedAt(t, u, k, j);
        assert c[j] == g[j] + (if j == 0 then 0 else u * g[j - 1]);
      } else if j == k + 2 {
        assert c[j] == u * g[j - 1];
      }
    }
  }

  /** Any polynomial of degree n with leading coefficient prod(a_j - x) is reached by openings
      with this a. */
  lemma {:induction false} OpeningsFor(a: seq<int>, x: int, t: seq<int>) returns (o: Openings)
    requires |a| > 0 && |t| == |a| + 1 && Last(t) == Product(Shifted(a, x))
    ensures Sized(o, |a|) && o.a == a && FoldPoly(o, x, |a| - 1) == t
    decreases |a|
  {
    hide Product, Shifted, MulLinear;
    var i := |a| - 1;
    assert a[..i + 1] == a;
    ProductSnoc(a, i, x);
    if i == 0 {
      o := Openings(a, [t[0]], [0], [0]);
      assert FoldPoly(o, x, 0) == t;
    } else {
      hide FoldPoly, Earlier, AddPoly, Last;
      var u, lead := a[i] - x, Product(Shifted(a[..i], x));
      var o' := OpeningsFor(a[..i], x, Earlier(t, u, lead));
      var D, b := StepReaches(t, u, lead);
      o := Extended(o', a[i], D, b);
      ExtendedFolds(o', a[i], D, b, x);
    }
  }

  /** One more entry: the step to it adds D and b. */
  function Extended(o: Openings, a: int, D: int, b: int): (r: Openings)
    requires Sized(o, |o.a|) && |o.a| > 0
    ensures Sized(r, |o.a| + 1) && r.a == o.a + [a]
  {
    var k := |o.a| - 1;
    Openings(o.a + [a], o.d + [1], o.b[..k] + [b, 0], o.D[..k] + [D, 0])
  }

  lemma ExtendedFolds(o: Openings, a: int, D: int, b: int, x: int)
    requires Sized(o, |o.a|) && |o.a| > 0
    ensures var i := |o.a|;
      FoldPoly(Extended(o, a, D, b), x, i) == AddPoly(MulLinear(FoldPoly(o, x, i - 1), 1, a - x),
        ZeroPoly(i - 1) + [D, b] + [0])
  {
    hide MulLinear, AddPoly, ZeroPoly;
    var i, r := |o.a|, Extended(o, a, D, b);
    assert SamePrefix(r, o, i - 1);
    FoldPolyPrefix(r, o, x, i - 1);
    FoldPolyUnfolds(r, x, i);
  }

  // ---------- accepted at given challenges ----------

  /** k times the product of the t - e_i, as a polynomial in t. */
  function RootPoly(k: int, es: seq<int>): (r: seq<int>)
    ensures |r| == |es| + 1
  {
    if es == [] then [k] else MulLinear(RootPoly(k, es[1..]), -es[0], 1)
  }

  lemma {:induction false} RootPolyLast(k: int, es: seq<int>)
    ensures Last(RootPoly(k, es)) == k
  {
    if es != [] {
      RootPolyLast(k, es[1..]);
      EvalMulLinear(RootPoly(k, es[1..]), -es[0], 1, 0);
    }
  }

  lemma {:induction false} RootPolyVanishes(k: int, es: seq<int>, i: nat)
    requires i < |es|
    ensures Eval(RootPoly(k, es), es[i]) == 0
  {
    hide Eval, MulLinear;
    var rest := RootPoly(k, es[1..]);
    EvalMulLinear(rest, -es[0], 1, es[i]);
    if i > 0 { RootPolyVanishes(k, es[1..], i - 1); }
    hide RootPoly;
    VanishingProduct(-es[0] + 1 * es[i], Eval(rest, es[i]));
  }

  lemma VanishingProduct(a: int, b: int)
    requires a == 0 || b == 0
    ensures a * b == 0
  {
  }

  /** Roots of the final polynomial are accepted challenges. */
  lemma RootIsAccepted(l: int, o: Openings, m: seq<int>, x: int, e: int)
    requires IsPrime(l) && l > 2 && 0 < |o.a| == |m| && Sized(o, |o.a|) && !Cong(l, e, 0)
    requires Cong(l, Eval(FinalPoly(o, x, Product(Shifted(m, x))), e), 0)
    ensures AcceptedAt(l, o, m, x, e)
  {
    hide Cong, IsPrime, Eval, FoldF, FoldPoly, FinalPoly, Product, Shifted, Responses, Eq, Pow;
    var n, q := |o.a|, Product(Shifted(m, x));
    var (f, fDelta) := Responses(o, e);
    FoldPolyIsFold(l, o, x, e, n - 1);
    FinalPolyEval(o, x, q, e);
    PowStep(e, n - 1);
    PowNonzero(l, e, n - 1);
    CancelPower(l, e, Pow(e, n - 1), q, FoldF(l, f, fDelta, e, x, n - 1), Eval(FoldPoly(o, x, n - 1), e));
  }

  lemma {:induction false} PowNonzero(l: int, e: int, i: nat)
    requires IsPrime(l) && !Cong(l, e, 0)
    ensures !Cong(l, Pow(e, i), 0)
  {
    hide IsPrime, Cong;
    if i == 0 {
      SmallIsNonzero(l, 1) by { PrimeAboveOne(l); }
    } else {
      PowNonzero(l, e, i - 1);
      NonzeroProduct(l, e, Pow(e, i - 1));
    }
  }

  lemma PrimeAboveOne(l: int)
    requires IsPrime(l)
    ensures l > 1
  {
  }

  lemma CancelPower(l: int, e: int, t: int, q: int, F: int, g: int)
    requires IsPrime(l) && !Cong(l, t, 0) && Cong(l, g, t * F) && Cong(l, g - (e * t) * q, 0)
    ensures Cong(l, F, e * q)
  {
    hide Cong, IsPrime;
    assert (e * t) * q == t * (e * q) by { MulSwap(e, t, q, 1); }
    CongBy2(l, t * F, t * (e * q), g, t * F, -1, g - (e * t) * q, 0, 1);
    Cancel(l, t, F, e * q);
  }

  /** Any n nonzero challenges are accepted together, for every a, m and x. */
  lemma AnyChallengesAccepted(l: int, a: seq<int>, m: seq<int>, x: int, es: seq<int>) returns (o: Openings)
    requires IsPrime(l) && l > 2 && 0 < |a| == |m| && |es| <= |m|
    requires forall i :: 0 <= i < |es| ==> !Cong(l, es[i], 0)
    ensures Sized(o, |a|) && o.a == a && forall i :: 0 <= i < |es| ==> AcceptedAt(l, o, m, x, es[i])
  {
    hide Cong, IsPrime, Eval, FoldPoly, FinalPoly, Product, Shifted, AcceptedAt, MulLinear, RootPoly;
    var n, A, q := |m|, Product(Shifted(a, x)), Product(Shifted(m, x));
    var roots := es + ZeroPoly(n - |es|);
    var k := RootPoly(A - q, roots);
    RootPolyLast(A - q, roots);
    var t := AddPoly(k, ZeroPoly(n) + [q]);
    o := OpeningsFor(a, x, t);
    assert FinalPoly(o, x, q) == k by { FinalPolyOf(o, x, q, k); }
    forall i | 0 <= i < |es| ensures AcceptedAt(l, o, m, x, es[i]) {
      RootPolyVanishes(A - q, roots, i);
      CongRefl(l, 0);
      RootIsAccepted(l, o, m, x, es[i]);
    }
  }

  lemma FinalPolyOf(o: Openings, x: int, q: int, k: seq<int>)
    requires 0 < |o.a| == |o.d| == |o.b| == |o.D| && |k| == |o.a| + 1
    requires FoldPoly(o, x, |o.a| - 1) == AddPoly(k, ZeroPoly(|o.a|) + [q])
    ensures FinalPoly(o, x, q) == k
  {
    hide FoldPoly;
  }

  /** Some openings of a pass the final check at all these challenges. */
  ghost predicate Acceptable(l: int, a: seq<int>, m: seq<int>, x: int, es: seq<int>)
    requires l > 2 && 0 < |a| == |m|
  {
    exists o :: Sized(o, |a|) && o.a == a && forall i :: 0 <= i < |es| ==> AcceptedAt(l, o, m, x, es[i])
  }

  /** Where the products differ, a set of nonzero challenges can be accepted exactly when it has
      at most n elements. */
  lemma AcceptableUpToN(l: int, a: seq<int>, m: seq<int>, x: int, es: seq<int>)
    requires IsPrime(l) && l > 2 && 0 < |a| == |m| && !AgreeAt(l, a, m, x)
    requires Distinct(l, es) && forall i :: 0 <= i < |es| ==> !Cong(l, es[i], 0)
    ensures Acceptable(l, a, m, x, es) <==> |es| <= |m|
  {
    hide Cong, IsPrime, AgreeAt, AcceptedAt, Distinct;
    if |es| <= |m| {
      var o := AnyChallengesAccepted(l, a, m, x, es);
    } else if Acceptable(l, a, m, x, es) {
      var o :| Sized(o, |a|) && o.a == a && forall i :: 0 <= i < |es| ==> AcceptedAt(l, o, m, x, es[i]);
      FewChallengesAccepted(l, o, m, x, es);
    }
  }
}
