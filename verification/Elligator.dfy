/** The Elligator 2 map of section 6.7.1 of RFC 9380 in two forms, and its inverse:
    the library's elligator_encode and the protocol's inversion-free field_to_mont with
    mont_to_field (curve25519-dalek/src/montgomery.rs, src/mapping.rs). */
module Elligator {
  import opened Wrappers
  import opened Arith
  import opened FieldAlgorithms
  import opened Squares
  import opened EdwardsCodec

  function ElligatorEncode(k: Curve, r: int): int
    requires k.f.p > 0
  {
    var d1 := 1 + 2 * (r * r);
    var d := -k.a * Invert(d1);
    var eps := d * (d * d + k.a * d + 1);
    var (isSquare, _) := SqrtRatioI(k.f, eps, 1);
    Canonical(k.f.p, if isSquare then d else -(d + k.a))
  }

  function FieldToMont(k: Curve, r: int): int
    requires k.f.p > 0
  {
    var rr := r * r;
    var zu := 2 * rr;
    var v := zu + 1;
    var vv := v * v;
    var t3 := ((k.a * k.a) * zu - vv) * k.a;
    var t1 := vv * v;
    var (isSquare, inv) := SqrtRatioI(k.f, 1, t3 * t1);
    var u := if isSquare then 1 else rr * (-2 * k.f.i);
    var x := -u * k.a * t3 * vv * (inv * inv);
    Canonical(k.f.p, x)
  }

  function Abs(f: Field, x: int): int
    requires f.p > 0
  {
    if IsNegative(f, x) then -x else x
  }

  function MontToField(k: Curve, u: int): Option<(int, int)>
    requires k.f.p > 0
  {
    if Eq(k.f.p, u, -k.a) then None
    else
      var t := u + k.a;
      var (isSquare, r) := SqrtRatioI(k.f, 1, (-2 * u) * t);
      if !isSquare then None else Some((Abs(k.f, t * r), Abs(k.f, u * r)))
  }

  /** d is the Elligator candidate -a / (1 + 2 r^2). */
  ghost predicate IsCandidate(k: Curve, r: int, d: int) {
    Cong(k.f.p, (1 + 2 * (r * r)) * d, -k.a)
  }

  function Eps(k: Curve, d: int): int {
    d * (d * d + k.a * d + 1)
  }

  /** 1 + 2 r^2 is never zero, because 2 is not a square. */
  lemma DenominatorNonzero2(k: Curve, r: int)
    requires ValidCurve(k)
    ensures !Cong(k.f.p, 1 + 2 * (r * r), 0)
  {
    hide Cong, IsPrime;
    var p := k.f.p;
    TwoIsNonsquare(k.f);
    if Cong(p, 1 + 2 * (r * r), 0) {
      if Cong(p, r, 0) {
        CongBy2(p, 1, 0, 1 + 2 * (r * r), 0, 1, r, 0, -2 * r);
        SmallIsNonzero(p, 1);
      } else {
        SquareFactor(k.f, 2, r);
        CongBy2(p, k.f.i * k.f.i, 2 * (r * r), k.f.i * k.f.i, -1, 1, 1 + 2 * (r * r), 0, -1);
        SquareIntro(k.f, 2 * (r * r), k.f.i);
      }
    }
  }

  lemma EpsAlgebra(a: int, v: int, d: int)
    ensures var x := v * d;
      && ((v * v) * v) * (d * (d * d + a * d + 1)) == x * (x * x + (a * v) * x + v * v)
      && x * (x * x + (a * v) * x + v * v) - ((a * a) * (v - 1) - v * v) * a
         == (x * x - a * x + a * a + (a * v) * (x - a) + v * v) * (x + a)
  {
    var x := v * d;
    var vv := v * v;
    assert (vv * v) * (d * (d * d + a * d + 1)) == x * (vv * (d * d + a * d + 1)) by {
      MulSwap(vv, v, d * d + a * d + 1, d);
    }
    assert vv * (d * d) == x * x by { MulSwap(v, d, v, d); }
    assert vv * (a * d) == (a * v) * x by { MulSwap(v, v, a, d); MulSwap(a, v, v, d); }
    EpsFactor(a, v, x);
  }

  lemma EpsFactor(a: int, v: int, x: int)
    ensures x * (x * x + (a * v) * x + v * v) - ((a * a) * (v - 1) - v * v) * a
         == (x * x - a * x + a * a + (a * v) * (x - a) + v * v) * (x + a)
  {
    var b, w, A, X := a * v, v * v, a * a, x * x;
    SumOfCubes(a, x);
    MiddleTerms(a, b, x);
    assert A * (v - 1) * a == b * A - a * A by { Rotate(A, v - 1, a); Rotate(A, v, a); }
    EpsTotal(a, b, w, A, X, x, A * (v - 1));
  }

  lemma SumOfCubes(a: int, x: int)
    ensures (x * x - a * x + a * a) * (x + a) == x * (x * x) + a * (a * a)
  {
    var A, X, t := a * a, x * x, a * x;
    assert (X - t + A) * (x + a) == X * x - t * x + A * x + (X * a - t * a + A * a);
    assert t * x == X * a && t * a == A * x by { Rotate(a, x, x); Rotate(a, x, a); }
  }

  lemma MiddleTerms(a: int, b: int, x: int)
    ensures (b * (x - a)) * (x + a) == b * (x * x) - b * (a * a) && x * (b * x) == b * (x * x)
  {
    var A, X := a * a, x * x;
    assert (x - a) * (x + a) == X - A;
    Rotate(b, x - a, x + a);
    assert (x + a) * (x - a) == X - A;
    assert b * (X - A) == b * X - b * A;
    Rotate(x, b, x);
  }

  lemma EpsTotal(a: int, b: int, w: int, A: int, X: int, x: int, T: int)
    requires (X - a * x + A) * (x + a) == x * X + a * A
    requires (b * (x - a)) * (x + a) == b * X - b * A && x * (b * x) == b * X && T * a == b * A - a * A
    ensures x * (X + b * x + w) - (T - w) * a == (X - a * x + A + b * (x - a) + w) * (x + a)
  {
    var p, q, s := X - a * x + A, b * (x - a), x + a;
    assert (p + q + w) * s == p * s + q * s + w * s;
    assert w * s == w * x + w * a;
    assert x * (X + b * x + w) == x * X + x * (b * x) + x * w;
    assert (T - w) * a == T * a - w * a;
  }

  /** v^3 eps = t3, the quantity the inversion-free form tests. */
  lemma EpsScaled(k: Curve, r: int, d: int)
    requires ValidCurve(k) && IsCandidate(k, r, d)
    ensures var v := 1 + 2 * (r * r); var t3 := ((k.a * k.a) * (v - 1) - v * v) * k.a;
      Cong(k.f.p, ((v * v) * v) * Eps(k, d), t3)
  {
    hide Cong, IsPrime;
    var v := 1 + 2 * (r * r);
    var t3 := ((k.a * k.a) * (v - 1) - v * v) * k.a;
    var x := v * d;
    EpsAlgebra(k.a, v, d);
    CongBy(k.f.p, ((v * v) * v) * Eps(k, d), t3, x, -k.a,
           x * x - k.a * x + k.a * k.a + (k.a * v) * (x - k.a) + v * v);
  }

  /** t3 is never zero. */
  lemma T3Nonzero(k: Curve, r: int)
    requires ValidCurve(k)
    ensures var v := 1 + 2 * (r * r); !Cong(k.f.p, ((k.a * k.a) * (v - 1) - v * v) * k.a, 0)
  {
    hide Cong, IsPrime;
    var p, a := k.f.p, k.a;
    var v := 1 + 2 * (r * r);
    var m := (a * a) * (v - 1) - v * v;
    CurveFacts(k);
    NonzeroProduct(p, m, a);
    if Cong(p, m, 0) {
      var s := a * r;
      assert (a * a) * (v - 1) == 2 * (s * s) by { MulSwap(a, r, a, r); }
      if Cong(p, r, 0) {
        CongBy(p, v, 1, r, 0, 2 * r);
        assert m - (-1) == (a * a - v - 1) * (v - 1);
        CongBy(p, m, -1, v, 1, a * a - v - 1);
        CongBy2(p, 1, 0, m, -1, 1, m, 0, -1);
        SmallIsNonzero(p, 1);
      } else {
        TwoIsNonsquare(k.f);
        NonzeroProduct(p, a, r);
        SquareFactor(k.f, 2, s);
        CongBy(p, v * v, 2 * (s * s), m, 0, -1);
        SquareIntro(k.f, 2 * (s * s), v);
      }
    }
  }

  /** What both forms compute: d when d^3 + a d^2 + d is a square, else -d - a. */
  ghost function Image(k: Curve, d: int): int {
    if IsSquare(k.f, Eps(k, d)) then d else -(d + k.a)
  }

  lemma ComputedCandidate(k: Curve, r: int)
    requires ValidCurve(k)
    ensures IsCandidate(k, r, -k.a * Invert(1 + 2 * (r * r)))
  {
    hide Cong, IsPrime, Invert;
    var v := 1 + 2 * (r * r);
    DenominatorNonzero2(k, r);
    InvertCorrect(k.f, v);
    var w := Invert(v);
    assert v * (-k.a * w) == -k.a * (v * w);
    CongBy(k.f.p, v * (-k.a * w), -k.a, v * w, 1, -k.a);
  }

  lemma EncodeIsImage(k: Curve, r: int)
    requires ValidCurve(k)
    ensures var d := -k.a * Invert(1 + 2 * (r * r));
      ElligatorEncode(k, r) == Canonical(k.f.p, Image(k, d))
  {
    hide Cong, IsPrime, Invert, SqrtRatioI, IsNegative;
    var d := -k.a * Invert(1 + 2 * (r * r));
    SmallIsNonzero(k.f.p, 1);
    SquareTest(k.f, Eps(k, d), 1);
    assert Eps(k, d) * 1 == Eps(k, d);
  }

  lemma TestedProduct(k: Curve, r: int, d: int)
    requires ValidCurve(k) && IsCandidate(k, r, d)
    ensures var v := 1 + 2 * (r * r); var t3 := ((k.a * k.a) * (v - 1) - v * v) * k.a;
      var K := t3 * ((v * v) * v);
      !Cong(k.f.p, K, 0) && (IsSquare(k.f, K) <==> IsSquare(k.f, Eps(k, d)))
  {
    hide Cong, IsPrime;
    var p := k.f.p;
    var v := 1 + 2 * (r * r);
    var t3 := ((k.a * k.a) * (v - 1) - v * v) * k.a;
    var t1 := (v * v) * v;
    DenominatorNonzero2(k, r);
    NonzeroProduct(p, v, v);
    NonzeroProduct(p, v * v, v);
    T3Nonzero(k, r);
    NonzeroProduct(p, t3, t1);
    EpsScaled(k, r, d);
    assert Eps(k, d) * (t1 * t1) == (t1 * Eps(k, d)) * t1;
    CongBy(p, Eps(k, d) * (t1 * t1), t3 * t1, t1 * Eps(k, d), t3, t1);
    SquareCong(k.f, Eps(k, d) * (t1 * t1), t3 * t1);
    SquareFactor(k.f, Eps(k, d), t1);
  }

  lemma NonsquareImage(p: int, a: int, i: int, rr: int, v: int, d: int, kn: int, x: int)
    requires v == 1 + 2 * rr && Cong(p, i * i, -1) && Cong(p, kn, i * 1) && Cong(p, v * d, -a)
    requires v * x == (-(rr * (-2 * i)) * a) * kn
    ensures Cong(p, v * x, v * -(d + a))
  {
    hide Cong;
    var c := 2 * rr * a;
    var m := c * i;
    assert -(rr * (-2 * i)) * a == m;
    assert m * i == c * (i * i);
    CongBy2(p, v * x, -c, kn, i, m, i * i, -1, c);
    assert v * -(d + a) == -(v * d) - a - c;
    CongBy2(p, v * x, v * -(d + a), v * x, -c, 1, v * d, -a, 1);
  }

  lemma ScaledImage(k: Curve, r: int, d: int, kn: int, x: int, isSquare: bool)
    requires ValidCurve(k) && IsCandidate(k, r, d)
    requires Cong(k.f.p, kn, if isSquare then 1 else k.f.i * 1)
    requires (1 + 2 * (r * r)) * x == (-(if isSquare then 1 else (r * r) * (-2 * k.f.i)) * k.a) * kn
    ensures Cong(k.f.p, x, if isSquare then d else -(d + k.a))
  {
    hide Cong, IsPrime;
    var p, a, i := k.f.p, k.a, k.f.i;
    var rr := r * r;
    var v := 1 + 2 * rr;
    DenominatorNonzero2(k, r);
    if isSquare {
      CongBy2(p, v * x, v * d, kn, 1, -a, v * d, -a, -1);
      Cancel(p, v, x, d);
    } else {
      NonsquareImage(p, a, i, rr, v, d, kn, x);
      Cancel(p, v, x, -(d + a));
    }
  }

  /** The inversion-free form computes the same image, for any candidate d. */
  lemma FieldToMontIsImage(k: Curve, r: int, d: int)
    requires ValidCurve(k) && IsCandidate(k, r, d)
    ensures FieldToMont(k, r) == Canonical(k.f.p, Image(k, d))
  {
    hide Cong, IsPrime, SqrtRatioI, IsNegative, IsCandidate, Eps;
    var p, a := k.f.p, k.a;
    var rr := r * r;
    var v := 2 * rr + 1;
    var vv := v * v;
    var t3 := ((a * a) * (2 * rr) - vv) * a;
    var K := t3 * (vv * v);
    TestedProduct(k, r, d);
    SquareTest(k.f, 1, K);
    var (isSquare, inv) := SqrtRatioI(k.f, 1, K);
    assert 1 * K == K;
    var n := inv * inv;
    var u := if isSquare then 1 else rr * (-2 * k.f.i);
    var x := -u * a * t3 * vv * n;
    ScaledX(v, -u * a, t3, vv, n);
    ScaledImage(k, r, d, K * n, x, isSquare);
    CongIffCanonical(p, x, Image(k, d));
  }

  lemma ScaledX(v: int, c: int, t3: int, vv: int, n: int)
    ensures v * (c * t3 * vv * n) == c * ((t3 * (vv * v)) * n)
  {
    assert v * (c * t3 * vv * n) == (c * t3 * vv * v) * n;
    assert c * t3 * vv * v == c * (t3 * (vv * v)) by { MulSwap(c * t3, vv, v, 1); }
  }

  /** The two forms of the map agree on every field element. */
  lemma FormsAgree(k: Curve, r: int)
    requires ValidCurve(k)
    ensures FieldToMont(k, r) == ElligatorEncode(k, r)
  {
    hide FieldToMont, ElligatorEncode, IsCandidate;
    ComputedCandidate(k, r);
    EncodeIsImage(k, r);
    FieldToMontIsImage(k, r, -k.a * Invert(1 + 2 * (r * r)));
  }

  // ---------- the image lies on the curve ----------

  /** 2 r^2 d = -(d + a). */
  lemma CandidateRatio(k: Curve, r: int, d: int)
    requires ValidCurve(k) && IsCandidate(k, r, d)
    ensures Cong(k.f.p, -(d + k.a), (2 * (r * r)) * d)
  {
    hide Cong, IsPrime;
    CongBy(k.f.p, -(d + k.a), (2 * (r * r)) * d, (1 + 2 * (r * r)) * d, -k.a, -1);
  }

  lemma FourFactors(s: int, d: int, q: int)
    ensures (2 * (d * q)) * s == ((2 * s) * d) * q
  {
    MulSwap(2, d * q, s, 1);
    MulSwap(2 * s, d, q, 1);
  }

  lemma SameQuadratic(a: int, d: int)
    ensures (-(d + a)) * (-(d + a)) + a * -(d + a) + 1 == d * d + a * d + 1
  {
    var t := d + a;
    assert (-t) * (-t) == t * t && a * -t == -(a * t);
    assert t * t - a * t == t * d && t * d == d * d + a * d;
  }

  lemma ImageOnCurve(k: Curve, r: int, d: int)
    requires ValidCurve(k) && IsCandidate(k, r, d)
    ensures OnMontgomery(k, Image(k, d))
  {
    hide Cong, IsPrime, IsSquare, IsCandidate, ValidCurve;
    if !IsSquare(k.f, Eps(k, d)) {
      var u, q := -(d + k.a), d * d + k.a * d + 1;
      SameQuadratic(k.a, d);
      CandidateRatio(k, r, d);
      OtherRatio(k.f.p, r, d, u, q);
      DoubledSquare(k, r, d);
      assert Eps(k, d) == d * q;
      SquareCong(k.f, u * q, (2 * (d * q)) * (r * r));
    }
  }

  /** 2 eps(d) r^2 is a square when eps(d) is not. */
  lemma DoubledSquare(k: Curve, r: int, d: int)
    requires ValidCurve(k) && !IsSquare(k.f, Eps(k, d))
    ensures IsSquare(k.f, (2 * Eps(k, d)) * (r * r))
  {
    hide Cong, IsPrime, Eps;
    TwoIsNonsquare(k.f);
    NonsquareTimesNonsquare(k.f, 2, Eps(k, d));
    CongRefl(k.f.p, r * r);
    SquareIntro(k.f, r * r, r);
    SquareTimesSquare(k.f, 2 * Eps(k, d), r * r);
  }

  lemma OtherRatio(p: int, r: int, d: int, u: int, q: int)
    requires Cong(p, u, (2 * (r * r)) * d)
    ensures Cong(p, u * q, (2 * (d * q)) * (r * r))
  {
    hide Cong;
    FourFactors(r * r, d, q);
    CongBy(p, u * q, ((2 * (r * r)) * d) * q, u, (2 * (r * r)) * d, q);
  }

  lemma OnMontgomeryCong(k: Curve, u: int, u': int)
    requires OnMontgomery(k, u) && Cong(k.f.p, u, u')
    ensures OnMontgomery(k, u')
  {
    hide Cong;
    var p := k.f.p;
    CongMul(p, u, u', u, u');
    var q, q' := u * u + k.a * u + 1, u' * u' + k.a * u' + 1;
    CongBy2(p, q, q', u * u, u' * u', 1, u, u', k.a);
    CongMul(p, u, u', q, q');
    SquareCong(k.f, u * q, u' * q');
  }

  /** Hashing never leaves the curve: every field element maps to the u-coordinate of a
      curve point, so the conversion to Edwards form cannot fail. */
  lemma FieldToMontOnCurve(k: Curve, r: int)
    requires ValidCurve(k)
    ensures OnMontgomery(k, FieldToMont(k, r))
    ensures ToEdwards(k, FieldToMont(k, r), false).Some?
  {
    hide FieldToMont, IsCandidate, Cong, OnMontgomery, Image;
    ComputedCandidate(k, r);
    var d := -k.a * Invert(1 + 2 * (r * r));
    FieldToMontIsImage(k, r, d);
    ImageOnCurve(k, r, d);
    CanonicalCong(k.f.p, Image(k, d));
    OnMontgomeryCong(k, Image(k, d), FieldToMont(k, r));
    ToEdwardsCorrect(k, FieldToMont(k, r));
  }

  // ---------- the inverse map ----------

  /** If y = -2 r^2 x then -2 x y is the square (2 r x)^2 and its inverse root recovers r. */
  lemma Preimage(f: Field, r: int, x: int, y: int)
    requires Valid(f) && !Cong(f.p, r, 0) && !Cong(f.p, x, 0)
    requires Cong(f.p, (2 * (r * r)) * x, -y)
    ensures !Cong(f.p, (-2 * x) * y, 0) && IsSquare(f, (-2 * x) * y)
  {
    hide Cong, IsPrime;
    var s := 2 * r * x;
    assert s * s == (2 * x) * ((2 * (r * r)) * x) by { MulSwap(2 * r, x, 2 * r, x); }
    CongBy(f.p, s * s, (-2 * x) * y, (2 * (r * r)) * x, -y, 2 * x);
    SquareIntro(f, (-2 * x) * y, s);
    SmallIsNonzero(f.p, 2);
    NonzeroProduct(f.p, 2, r);
    NonzeroProduct(f.p, 2 * r, x);
    NonzeroProduct(f.p, s, s);
    if Cong(f.p, (-2 * x) * y, 0) {
      CongTrans(f.p, s * s, (-2 * x) * y, 0);
    }
  }

  lemma PreimageRoot(f: Field, r: int, x: int, y: int, s: int)
    requires Cong(f.p, (2 * (r * r)) * x, -y)
    requires Cong(f.p, ((-2 * x) * y) * (s * s), 1)
    ensures Cong(f.p, (y * s) * (y * s), r * r)
  {
    hide Cong;
    var rr, n := r * r, s * s;
    assert (y * s) * (y * s) == (y * n) * y by { MulSwap(y, s, y, s); }
    assert (y * n) * ((2 * rr) * x) == -(rr * (((-2 * x) * y) * n)) by {
      MulSwap(y, n, 2 * rr, x);
      MulSwap(-2 * x, y, n, rr);
    }
    CongBy2(f.p, (y * s) * (y * s), rr, (2 * rr) * x, -y, -(y * n) * -1, ((-2 * x) * y) * n, 1, rr);
  }

  lemma AbsSquare(f: Field, x: int)
    requires f.p > 0
    ensures Abs(f, x) * Abs(f, x) == x * x
  {
  }

  ghost predicate PlusMinus(p: int, r: int, s: int) {
    Cong(p, r, s) || Cong(p, r, -s)
  }

  /** The relation between a nonzero r and its image u that the inverse map exploits. */
  ghost predicate Related(k: Curve, r: int, u: int) {
    || (Cong(k.f.p, (2 * (r * r)) * u, -(u + k.a)) && !Cong(k.f.p, u, 0))
    || (Cong(k.f.p, (2 * (r * r)) * (u + k.a), -u) && !Cong(k.f.p, u + k.a, 0))
  }

  lemma RelatedIsAccepted(k: Curve, r: int, u: int)
    requires ValidCurve(k) && !Cong(k.f.p, r, 0) && Related(k, r, u)
    ensures var K := (-2 * u) * (u + k.a);
      !Cong(k.f.p, K, 0) && IsSquare(k.f, 1 * K) && !Cong(k.f.p, u, -k.a)
  {
    hide Cong, IsPrime;
    var p, t := k.f.p, u + k.a;
    assert (-2 * u) * t == (-2 * t) * u;
    if Cong(p, (2 * (r * r)) * u, -t) && !Cong(p, u, 0) {
      Preimage(k.f, r, u, t);
    } else {
      Preimage(k.f, r, t, u);
    }
    if Cong(p, u, -k.a) {
      CongBy(p, (-2 * u) * t, 0, u, -k.a, -2 * u);
    }
  }

  lemma RelatedRoot(k: Curve, r: int, u: int, s: int)
    requires Valid(k.f) && Related(k, r, u)
    requires Cong(k.f.p, ((-2 * u) * (u + k.a)) * (s * s), 1)
    ensures PlusMinus(k.f.p, r, Abs(k.f, (u + k.a) * s)) || PlusMinus(k.f.p, r, Abs(k.f, u * s))
  {
    hide Cong, IsPrime, IsNegative;
    var p, t := k.f.p, u + k.a;
    AbsSquare(k.f, t * s);
    AbsSquare(k.f, u * s);
    if Cong(p, (2 * (r * r)) * u, -t) {
      PreimageRoot(k.f, r, u, t, s);
      CongSym(p, (t * s) * (t * s), r * r);
      SquareRoots(p, r, Abs(k.f, t * s));
    } else {
      assert (-2 * u) * t == (-2 * t) * u;
      PreimageRoot(k.f, r, t, u, s);
      CongSym(p, (u * s) * (u * s), r * r);
      SquareRoots(p, r, Abs(k.f, u * s));
    }
  }

  /** mont_to_field recovers every nonzero preimage up to sign. */
  lemma MontToFieldFinds(k: Curve, r: int)
    requires ValidCurve(k) && !Cong(k.f.p, r, 0)
    ensures var o := MontToField(k, FieldToMont(k, r));
      o.Some? && (PlusMinus(k.f.p, r, o.value.0) || PlusMinus(k.f.p, r, o.value.1))
  {
    hide FieldToMont, IsCandidate, Cong, IsPrime, SqrtRatioI, IsNegative, Eq, Related;
    ComputedCandidate(k, r);
    var d := -k.a * Invert(1 + 2 * (r * r));
    FieldToMontIsImage(k, r, d);
    var u := FieldToMont(k, r);
    CanonicalCong(k.f.p, Image(k, d));
    ImageRelation(k, r, d, u);
    RelatedIsAccepted(k, r, u);
    var K := (-2 * u) * (u + k.a);
    SquareTest(k.f, 1, K);
    RelatedRoot(k, r, u, SqrtRatioI(k.f, 1, K).1);
  }

  /** Zero is the one input that cannot be recovered. */
  lemma ZeroIsNotRecovered(k: Curve, r: int)
    requires ValidCurve(k) && Cong(k.f.p, r, 0)
    ensures MontToField(k, FieldToMont(k, r)).None?
  {
    hide FieldToMont, MontToField, IsCandidate, Cong, IsPrime, Invert;
    var p := k.f.p;
    ComputedCandidate(k, r);
    var d := -k.a * Invert(1 + 2 * (r * r));
    FieldToMontIsImage(k, r, d);
    var u := FieldToMont(k, r);
    CanonicalCong(p, Image(k, d));
    ZeroCandidate(k, r, d);
    if Cong(p, u, d) {
      CongTrans(p, u, d, -k.a);
    } else {
      CongBy2(p, u, 0, u, -(d + k.a), 1, d, -k.a, -1);
    }
    NotAccepted(k, u);
  }

  lemma NotAccepted(k: Curve, u: int)
    requires ValidCurve(k) && (Cong(k.f.p, u, -k.a) || Cong(k.f.p, u, 0))
    ensures MontToField(k, u).None?
  {
    hide Cong, IsPrime, SqrtRatioI, IsNegative, Eq, Abs;
    if !Cong(k.f.p, u, -k.a) {
      var K := (-2 * u) * (u + k.a);
      CongBy(k.f.p, K, 0, u, 0, -2 * (u + k.a));
      SqrtRatioCorrect(k.f, 1, K);
      SmallIsNonzero(k.f.p, 1);
    }
  }

  lemma ZeroCandidate(k: Curve, r: int, d: int)
    requires Cong(k.f.p, r, 0) && IsCandidate(k, r, d)
    ensures Cong(k.f.p, d, -k.a)
  {
    hide Cong;
    CongBy2(k.f.p, d, -k.a, (1 + 2 * (r * r)) * d, -k.a, 1, r, 0, -(2 * r * d));
  }

  /** Either 2 r^2 u = -(u + a), or 2 r^2 (u + a) = -u. */
  lemma ImageRelation(k: Curve, r: int, d: int, u: int)
    requires ValidCurve(k) && IsCandidate(k, r, d)
    requires Cong(k.f.p, u, d) || Cong(k.f.p, u, -(d + k.a))
    ensures Related(k, r, u)
  {
    hide Cong, IsPrime;
    var p, a := k.f.p, k.a;
    var rr := r * r;
    CurveFacts(k);
    CandidateNonzero(k, r, d);
    if Cong(p, u, d) {
      CongBy2(p, (2 * rr) * u, -(u + a), u, d, 1 + 2 * rr, (1 + 2 * rr) * d, -a, 1);
      if Cong(p, u, 0) { CongBy2(p, d, 0, u, d, -1, u, 0, 1); }
    } else {
      var t := u + a;
      CongBy2(p, (2 * rr) * t, -u, u, -(d + a), 1 + 2 * rr, (1 + 2 * rr) * d, -a, -1);
      if Cong(p, t, 0) { CongBy2(p, d, 0, u, -(d + a), 1, t, 0, -1); }
    }
  }

  lemma CandidateNonzero(k: Curve, r: int, d: int)
    requires ValidCurve(k) && IsCandidate(k, r, d)
    ensures !Cong(k.f.p, d, 0)
  {
    hide Cong, IsPrime;
    CurveFacts(k);
    if Cong(k.f.p, d, 0) {
      CongBy2(k.f.p, k.a, 0, (1 + 2 * (r * r)) * d, -k.a, 1, d, 0, -(1 + 2 * (r * r)));
    }
  }

  // ---------- both representatives map back ----------

  /** u^2 + a u + 1 is never zero: its discriminant a^2 - 4 is not a square. */
  lemma QuadraticNonzero(k: Curve, u: int)
    requires ValidCurve(k)
    ensures !Cong(k.f.p, u * u + k.a * u + 1, 0)
  {
    hide Cong, IsPrime;
    var p, a, i := k.f.p, k.a, k.f.i;
    CurveFacts(k);
    var q := u * u + a * u + 1;
    if Cong(p, q, 0) {
      var s := 2 * u + a;
      assert s * s - (a - 2) * (a + 2) == 4 * q;
      CongBy(p, s * s, (a + 2) * (a - 2), q, 0, 4);
      SquareIntro(k.f, (a + 2) * (a - 2), s);
      assert (i * k.c) * (i * k.c) == (i * i) * (k.c * k.c) by { MulSwap(i, k.c, i, k.c); }
      CongBy2(p, (i * k.c) * (i * k.c), a + 2, i * i, -1, k.c * k.c, k.c * k.c, -(a + 2), -1);
      SquareIntro(k.f, a + 2, i * k.c);
      SquareTimesNonsquare(k.f, a + 2, a - 2);
    }
  }

  lemma HalfRatioAlgebra(x: int, y: int, n: int)
    ensures (2 * ((y * y) * n)) * x == -y * (((-2 * x) * y) * n)
  {
    MulSwap(y, y, n, 2 * x);
  }

  /** The two quantities behind the representatives: x s and y s for K = -2 x y, K s^2 = 1. */
  lemma HalfRatio(f: Field, x: int, y: int, s: int)
    requires Cong(f.p, ((-2 * x) * y) * (s * s), 1)
    ensures Cong(f.p, (2 * ((y * s) * (y * s))) * x, -y)
  {
    hide Cong;
    var n := s * s;
    MulSwap(y, s, y, s);
    HalfRatioAlgebra(x, y, n);
    CongBy(f.p, (2 * ((y * s) * (y * s))) * x, -y, ((-2 * x) * y) * n, 1, -y);
  }

  lemma Accepted(k: Curve, u: int) returns (s: int)
    requires ValidCurve(k) && MontToField(k, u).Some?
    ensures MontToField(k, u).value == (Abs(k.f, (u + k.a) * s), Abs(k.f, u * s))
    ensures Cong(k.f.p, ((-2 * u) * (u + k.a)) * (s * s), 1)
    ensures !Cong(k.f.p, u, 0) && !Cong(k.f.p, u + k.a, 0) && !Cong(k.f.p, s, 0)
  {
    hide Cong, IsPrime, SqrtRatioI, IsNegative, Eq;
    var p, t := k.f.p, u + k.a;
    var K := (-2 * u) * t;
    s := SqrtRatioI(k.f, 1, K).1;
    SqrtRatioCorrect(k.f, 1, K);
    SmallIsNonzero(p, 1);
    var one := K * (s * s);
    if Cong(p, s, 0) { CongBy2(p, 1, 0, one, 1, -1, s, 0, K * s); }
    if Cong(p, u, 0) { CongBy(p, K, 0, u, 0, -2 * t); }
    if Cong(p, t, 0) { CongBy(p, K, 0, t, 0, -2 * u); }
  }

  lemma SameSquareSameImage(k: Curve, r: int, s: int)
    requires k.f.p > 0 && r * r == s * s
    ensures FieldToMont(k, r) == FieldToMont(k, s)
  {
  }

  lemma FieldToMontCong(k: Curve, r: int, s: int)
    requires ValidCurve(k) && Cong(k.f.p, r, s)
    ensures FieldToMont(k, r) == FieldToMont(k, s)
  {
    hide Cong, IsPrime, FieldToMont, Image, Invert;
    var p := k.f.p;
    ComputedCandidate(k, s);
    var d := -k.a * Invert(1 + 2 * (s * s));
    CongMul(p, r, s, r, s);
    CongBy2(p, (1 + 2 * (r * r)) * d, -k.a, r * r, s * s, 2 * d, (1 + 2 * (s * s)) * d, -k.a, 1);
    FieldToMontIsImage(k, r, d);
    FieldToMontIsImage(k, s, d);
  }

  /** Both representatives of an accepted on-curve u, with either sign, map back to u. */
  lemma RepresentativesMapBack(k: Curve, u: int)
    requires ValidCurve(k) && OnMontgomery(k, u) && MontToField(k, u).Some?
    ensures var (r0, r1) := MontToField(k, u).value;
      forall r :: r == r0 || r == -r0 || r == r1 || r == -r1 ==> Cong(k.f.p, FieldToMont(k, r), u)
  {
    hide Cong, IsPrime, FieldToMont, MontToField, IsNegative;
    var s := Accepted(k, u);
    var p, t := k.f.p, u + k.a;
    FirstMapsBack(k, u, s);
    SecondMapsBack(k, u, s);
    AbsSquare(k.f, t * s);
    AbsSquare(k.f, u * s);
    var (r0, r1) := MontToField(k, u).value;
    forall r | r == r0 || r == -r0 || r == r1 || r == -r1
      ensures Cong(p, FieldToMont(k, r), u)
    {
      if r == r0 || r == -r0 {
        assert r * r == r0 * r0;
        SameSquareSameImage(k, r, t * s);
      } else {
        assert r * r == r1 * r1;
        SameSquareSameImage(k, r, u * s);
      }
    }
  }

  lemma FirstMapsBack(k: Curve, u: int, s: int)
    requires ValidCurve(k) && OnMontgomery(k, u)
    requires Cong(k.f.p, ((-2 * u) * (u + k.a)) * (s * s), 1)
    ensures Cong(k.f.p, FieldToMont(k, (u + k.a) * s), u)
  {
    hide Cong, IsPrime, FieldToMont;
    var p, t := k.f.p, u + k.a;
    var r := t * s;
    HalfRatio(k.f, u, t, s);
    CongBy(p, (1 + 2 * (r * r)) * u, -k.a, (2 * (r * r)) * u, -t, 1);
    FieldToMontIsImage(k, r, u);
    CanonicalCong(p, u);
  }

  lemma CandidateFromHalf(p: int, a: int, u: int, t: int, r: int)
    requires t == u + a && Cong(p, (2 * (r * r)) * t, -u)
    ensures Cong(p, (1 + 2 * (r * r)) * -t, -a)
  {
    var s := 2 * (r * r);
    assert (1 + s) * -t == -t - s * t;
    CongBy(p, (1 + s) * -t, -a, s * t, -u, -1);
  }

  lemma SecondMapsBack(k: Curve, u: int, s: int)
    requires ValidCurve(k) && OnMontgomery(k, u)
    requires Cong(k.f.p, ((-2 * u) * (u + k.a)) * (s * s), 1)
    requires !Cong(k.f.p, u, 0) && !Cong(k.f.p, u + k.a, 0) && !Cong(k.f.p, s, 0)
    ensures Cong(k.f.p, FieldToMont(k, u * s), u)
  {
    hide Cong, IsPrime, FieldToMont;
    var p, t := k.f.p, u + k.a;
    var r := u * s;
    assert (-2 * t) * u == (-2 * u) * t;
    HalfRatio(k.f, t, u, s);
    CandidateFromHalf(p, k.a, u, t, r);
    FieldToMontIsImage(k, r, -t);
    OppositeIsNonsquare(k, u, s);
    CanonicalCong(p, u);
    assert -(-t + k.a) == u;
  }

  lemma OppositeIsNonsquare(k: Curve, u: int, s: int)
    requires ValidCurve(k) && OnMontgomery(k, u)
    requires Cong(k.f.p, ((-2 * u) * (u + k.a)) * (s * s), 1)
    requires !Cong(k.f.p, u, 0) && !Cong(k.f.p, u + k.a, 0) && !Cong(k.f.p, s, 0)
    ensures !IsSquare(k.f, Eps(k, -(u + k.a)))
  {
    hide Cong, IsPrime;
    var p, t := k.f.p, u + k.a;
    var q := u * u + k.a * u + 1;
    var w := u * q;
    assert Eps(k, -t) == -t * q by { SameQuadratic(k.a, u); }
    QuadraticNonzero(k, u);
    NonzeroProduct(p, u, q);
    TwoIsNonsquare(k.f);
    SquareTimesNonsquare(k.f, w, 2);
    NonzeroProduct(p, t, s);
    SquareFactor(k.f, 2 * w, t * s);
    OppositeRatio(k.f, u, t, s, q);
    SquareCong(k.f, -t * q, (2 * w) * ((t * s) * (t * s)));
  }

  /** -t q and 2 u q (t s)^2 agree. */
  lemma OppositeRatio(f: Field, u: int, t: int, s: int, q: int)
    requires Valid(f) && Cong(f.p, ((-2 * u) * t) * (s * s), 1)
    ensures Cong(f.p, -t * q, (2 * (u * q)) * ((t * s) * (t * s)))
  {
    hide Cong, IsPrime;
    var p, r := f.p, t * s;
    HalfRatio(f, u, t, s);
    CongSym(p, (2 * (r * r)) * u, -t);
    assert (2 * (u * q)) * (r * r) == ((2 * (r * r)) * u) * q by { MulSwap(2, u * q, r * r, 1); Outer(2, u, q); }
    CongBy(p, -t * q, (2 * (u * q)) * (r * r), -t, (2 * (r * r)) * u, q);
  }
}
